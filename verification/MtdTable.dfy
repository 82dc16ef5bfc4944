/** The partition table with its "current partition": what one insertion or deletion does, and what every
    run of them keeps. */
module MtdTable {
  import opened Common
  import opened MtdSize
  import opened MtdParts
  import opened MtdText

  /** `devices`, `current_mtd_dev` and `current_mtd_partnum`. */
  datatype Table = Table(devs: seq<Device>, cur: Option<DevKey>, num: nat)

  datatype Op = AddPart(key: DevKey, part: Part) | DelPart(key: DevKey, i: nat)
              | AddDevice(dev: Device) | DelDevice(key: DevKey) | ChangePart(key: DevKey, n: nat)

  const MAX_PARTS: nat := 256

  predicate Sorted(parts: seq<Part>) {
    forall i, j :: 0 <= i < j < |parts| ==> parts[i].offset <= parts[j].offset
  }

  ghost predicate DeviceOk(gs: Geometries, d: Device) {
    && IdOk(d.id) && d.numParts == |d.parts| && 0 < |d.parts| <= MAX_PARTS && Sorted(d.parts)
    && d.id.key in gs && forall i :: 0 <= i < |d.parts| ==> InDevice(gs[d.id.key], d.id, d.parts[i])
  }

  /** Position of a device in the list, or the list's length. */
  function DevIndex(devs: seq<Device>, key: DevKey): (n: nat)
    ensures n <= |devs| && (n < |devs| ==> devs[n].id.key == key)
    ensures forall i :: 0 <= i < n ==> devs[i].id.key != key
  {
    if devs == [] || devs[0].id.key == key then 0
    else
      var n := 1 + DevIndex(devs[1..], key);
      assert forall i :: 0 < i < n ==> devs[i] == devs[1..][i - 1];
      n
  }

  predicate Present(t: Table, key: DevKey) {
    DevIndex(t.devs, key) < |t.devs|
  }

  function DeviceAt(t: Table, key: DevKey): Device
    requires Present(t, key)
  {
    t.devs[DevIndex(t.devs, key)]
  }

  ghost predicate TableOk(gs: Geometries, t: Table) {
    && DistinctKeys(t.devs)
    && (forall i :: 0 <= i < |t.devs| ==> DeviceOk(gs, t.devs[i]))
    && (t.cur == None <==> t.devs == [])
    && (t.cur.Some? ==> Present(t, t.cur.value) && t.num < |DeviceAt(t, t.cur.value).parts|)
  }

  /** The partition that the current device and number name. */
  ghost function Named(gs: Geometries, t: Table): Option<Part>
    requires TableOk(gs, t)
  {
    if t.cur == None then None else Some(DeviceAt(t, t.cur.value).parts[t.num])
  }

  // ----- one list: where the current index goes

  function Position(parts: seq<Part>, p: Part): (k: nat)
    ensures k <= |parts|
    ensures forall i :: 0 <= i < k ==> parts[i].offset < p.offset
    ensures k < |parts| ==> p.offset <= parts[k].offset
  {
    if parts == [] || p.offset <= parts[0].offset then 0
    else
      var k := 1 + Position(parts[1..], p);
      assert forall i :: 0 < i < k ==> parts[i] == parts[1..][i - 1];
      k
  }

  function Insert(parts: seq<Part>, p: Part): seq<Part> {
    var k := Position(parts, p);
    parts[..k] + [p] + parts[k..]
  }

  function Remove(parts: seq<Part>, i: nat): seq<Part>
    requires i < |parts|
  {
    parts[..i] + parts[i + 1..]
  }

  /** The test in `part_sort_add`: the entry the new one goes before is not beyond the current one. */
  function IndexAfterInsert(parts: seq<Part>, cur: nat, p: Part): nat
    requires cur < |parts|
  {
    var k := Position(parts, p);
    if k < |parts| && parts[k].offset <= parts[cur].offset then cur + 1 else cur
  }

  /** The test in `part_del`, with its 8-bit decrement. */
  function IndexAfterRemove(parts: seq<Part>, cur: nat, i: nat): nat
    requires cur < |parts| && i < |parts|
  {
    if i == cur then 0
    else if parts[i].offset <= parts[cur].offset then (cur + 255) % 256
    else cur
  }

  lemma InsertFirst(parts: seq<Part>, p: Part)
    requires parts == [] || p.offset <= parts[0].offset
    ensures Insert(parts, p) == [p] + parts
  {
    assert parts[..0] + [p] + parts[0..] == [p] + parts;
  }

  lemma InsertLater(parts: seq<Part>, p: Part)
    requires parts != [] && p.offset > parts[0].offset
    ensures Insert(parts, p) == [parts[0]] + Insert(parts[1..], p)
  {
    var k := Position(parts[1..], p);
    assert parts[..k + 1] == [parts[0]] + parts[1..][..k] && parts[k + 1..] == parts[1..][k..];
  }

  /** Sorting in agrees with the scan of the source, which also refuses a second partition at offset 0. */
  lemma {:induction false} SortAddIsInsert(parts: seq<Part>, p: Part)
    requires Sorted(parts)
    ensures SortAdd(parts, p) ==
      if parts != [] && parts[0].offset == p.offset == 0 then None else Some(Insert(parts, p))
  {
    hide Insert;
    if parts == [] || p.offset <= parts[0].offset {
      InsertFirst(parts, p);
      assert [p] + [] == [p];
    } else {
      SortAddIsInsert(parts[1..], p);
      InsertLater(parts, p);
    }
  }

  lemma InsertSorted(parts: seq<Part>, p: Part)
    requires Sorted(parts)
    ensures Sorted(Insert(parts, p)) && |Insert(parts, p)| == |parts| + 1
  {
    hide Position;
    var k, r := Position(parts, p), Insert(parts, p);
    forall i, j | 0 <= i < j < |r|
      ensures r[i].offset <= r[j].offset
    {
      var a, b := if i < k then i else i - 1, if j < k then j else j - 1;
      assert i != k ==> r[i] == parts[a];
      assert j != k ==> r[j] == parts[b];
    }
  }

  lemma InsertMembers(parts: seq<Part>, p: Part)
    ensures forall q :: q in Insert(parts, p) <==> q == p || q in parts
  {
    hide Position;
    var k := Position(parts, p);
    assert parts == parts[..k] + parts[k..];
  }

  /** After an insertion the current index names the partition it named before. */
  lemma InsertTracks(parts: seq<Part>, cur: nat, p: Part)
    requires Sorted(parts) && cur < |parts|
    ensures IndexAfterInsert(parts, cur, p) == (if Position(parts, p) <= cur then cur + 1 else cur)
    ensures Insert(parts, p)[IndexAfterInsert(parts, cur, p)] == parts[cur]
  {
  }

  /** Another partition of equal offset lies behind the current one. */
  predicate TiedBehind(parts: seq<Part>, cur: nat, i: nat)
    requires cur < |parts| && i < |parts|
  {
    i > cur && parts[i].offset == parts[cur].offset
  }

  /** After a deletion the index follows the current partition exactly when the deleted one is not tied
      with it from behind. */
  lemma RemoveTracksIff(parts: seq<Part>, cur: nat, i: nat)
    requires Sorted(parts) && cur < |parts| <= MAX_PARTS && i < |parts| && i != cur
    ensures IndexAfterRemove(parts, cur, i) == (if i < cur then cur - 1 else cur) <==> !TiedBehind(parts, cur, i)
    ensures !TiedBehind(parts, cur, i) ==>
      IndexAfterRemove(parts, cur, i) < |parts| - 1 && Remove(parts, i)[IndexAfterRemove(parts, cur, i)] == parts[cur]
  {
  }

  lemma RemoveSorted(parts: seq<Part>, i: nat)
    requires Sorted(parts) && i < |parts|
    ensures Sorted(Remove(parts, i)) && forall q :: q in Remove(parts, i) ==> q in parts
  {
    var r := Remove(parts, i);
    assert forall k :: 0 <= k < |r| ==> r[k] == parts[if k < i then k else k + 1];
  }

  // ----- steps

  /** The deletion is tied in offset behind the current partition. */
  predicate Misleads(t: Table, key: DevKey, i: nat)
    requires Present(t, key) && i < |DeviceAt(t, key).parts|
  {
    t.cur == Some(key) && t.num < |DeviceAt(t, key).parts| && TiedBehind(DeviceAt(t, key).parts, t.num, i)
  }

  /** What the callers and the code provide for. A misleading deletion at number 0 is the one case in which the code
      itself fails: it then looks up the name of a partition 255 (`TiedDeletion`). */
  ghost predicate Enabled(gs: Geometries, t: Table, op: Op) {
    match op
    case AddPart(key, p) => Present(t, key) && |DeviceAt(t, key).parts| < MAX_PARTS && PartU32(p)
    case DelPart(key, i) =>
      && Present(t, key) && i < |DeviceAt(t, key).parts|
      && !(t.num == 0 && Misleads(t, key, i))
    case AddDevice(dev) => DeviceOk(gs, dev) && !Present(t, dev.id.key)
    case DelDevice(key) => Present(t, key)
    case ChangePart(key, n) => Present(t, key) && n < |DeviceAt(t, key).parts|
  }

  function WithParts(t: Table, key: DevKey, parts: seq<Part>, num: nat): Table
    requires Present(t, key)
  {
    var n := DevIndex(t.devs, key);
    t.(devs := t.devs[n := t.devs[n].(parts := parts, numParts := |parts|)], num := num)
  }

  function WithoutDevice(t: Table, key: DevKey): Table
    requires Present(t, key)
  {
    var n := DevIndex(t.devs, key);
    var rest := t.devs[..n] + t.devs[n + 1..];
    if t.cur != Some(key) then t.(devs := rest)
    else if rest == [] then Table([], None, t.num)
    else Table(rest, Some(rest[0].id.key), 0)
  }

  ghost function AddTo(gs: Geometries, t: Table, key: DevKey, p: Part): Table
    requires Present(t, key)
  {
    var d := DeviceAt(t, key);
    match Validated(GeometryOf(gs, key), d.id, p)
    case None => t
    case Some(v) =>
      match SortAdd(d.parts, v)
      case None => t
      case Some(parts) =>
        WithParts(t, key, parts,
          if t.cur == Some(key) && t.num < |d.parts| then IndexAfterInsert(d.parts, t.num, v) else t.num)
  }

  function DelFrom(t: Table, key: DevKey, i: nat): Table
    requires Present(t, key) && i < |DeviceAt(t, key).parts|
  {
    var d := DeviceAt(t, key);
    if d.numParts == 1 then WithoutDevice(t, key)
    else WithParts(t, key, Remove(d.parts, i),
                   if t.cur == Some(key) && t.num < |d.parts| then IndexAfterRemove(d.parts, t.num, i) else t.num)
  }

  ghost function Step(gs: Geometries, t: Table, op: Op): Table
    requires Enabled(gs, t, op)
  {
    match op
    case AddPart(key, p) => AddTo(gs, t, key, p)
    case DelPart(key, i) => DelFrom(t, key, i)
    case AddDevice(dev) =>
      if t.devs == [] then Table([dev], Some(dev.id.key), 0) else t.(devs := t.devs + [dev])
    case DelDevice(key) => WithoutDevice(t, key)
    case ChangePart(key, n) => t.(cur := Some(key), num := n)
  }

  /** The step deletes or replaces the current partition itself, or is a deletion tied behind it. */
  predicate HitsCurrent(t: Table, op: Op) {
    match op
    case DelPart(key, i) =>
      t.cur == Some(key) && Present(t, key) && i < |DeviceAt(t, key).parts| && (i == t.num || Misleads(t, key, i))
    case DelDevice(key) => t.cur == Some(key)
    case ChangePart(_, _) => true
    case _ => false
  }

  // ----- every step keeps the invariant and the current partition

  lemma DevIndexUnique(devs: seq<Device>, n: nat)
    requires DistinctKeys(devs) && n < |devs|
    ensures DevIndex(devs, devs[n].id.key) == n
  {
  }

  lemma SameKeys(devs: seq<Device>, devs': seq<Device>)
    requires DistinctKeys(devs) && |devs'| == |devs| && forall i :: 0 <= i < |devs| ==> devs'[i].id == devs[i].id
    ensures DistinctKeys(devs')
  {
  }

  lemma WithPartsOk(gs: Geometries, t: Table, key: DevKey, parts: seq<Part>, num: nat)
    requires TableOk(gs, t) && Present(t, key) && DeviceOk(gs, DeviceAt(t, key).(parts := parts, numParts := |parts|))
    requires t.cur == Some(key) ==> num < |parts|
    requires t.cur != Some(key) ==> num == t.num
    ensures TableOk(gs, WithParts(t, key, parts, num))
    ensures Present(WithParts(t, key, parts, num), key)
    ensures DeviceAt(WithParts(t, key, parts, num), key).parts == parts
    ensures t.cur.Some? && t.cur != Some(key) ==> Named(gs, WithParts(t, key, parts, num)) == Named(gs, t)
  {
    hide DeviceOk, DevIndex, DistinctKeys;
    var n, t' := DevIndex(t.devs, key), WithParts(t, key, parts, num);
    assert forall i :: 0 <= i < |t.devs| ==> t'.devs[i].id == t.devs[i].id;
    SameKeys(t.devs, t'.devs);
    DevIndexUnique(t'.devs, n);
    if t.cur.Some? {
      DevIndexUnique(t'.devs, DevIndex(t.devs, t.cur.value));
    }
  }

  lemma WithoutDeviceOk(gs: Geometries, t: Table, key: DevKey)
    requires TableOk(gs, t) && Present(t, key)
    ensures TableOk(gs, WithoutDevice(t, key))
    ensures t.cur.Some? && t.cur != Some(key) ==>
      WithoutDevice(t, key).cur == t.cur && Named(gs, WithoutDevice(t, key)) == Named(gs, t)
  {
    hide DeviceOk, DevIndex, DistinctKeys;
    var n := DevIndex(t.devs, key);
    var rest := t.devs[..n] + t.devs[n + 1..];
    DropDevice(gs, t.devs, n);
    if t.cur.Some? && t.cur != Some(key) {
      var m := DevIndex(t.devs, t.cur.value);
      var m' := if m < n then m else m - 1;
      assert rest[m'] == t.devs[m];
      DevIndexUnique(rest, m');
    } else if rest != [] {
      DevIndexUnique(rest, 0);
      OkHasParts(gs, rest[0]);
    }
  }

  lemma DropDevice(gs: Geometries, devs: seq<Device>, n: nat)
    requires n < |devs| && DistinctKeys(devs) && forall i :: 0 <= i < |devs| ==> DeviceOk(gs, devs[i])
    ensures DistinctKeys(devs[..n] + devs[n + 1..])
    ensures var rest := devs[..n] + devs[n + 1..];
            forall i :: 0 <= i < |rest| ==> DeviceOk(gs, rest[i])
  {
    hide DeviceOk;
    var rest := devs[..n] + devs[n + 1..];
    forall i, j | 0 <= i < j < |rest| ensures rest[i].id.key != rest[j].id.key {
      assert rest[i] == devs[if i < n then i else i + 1];
      assert rest[j] == devs[if j < n then j else j + 1];
    }
    forall i | 0 <= i < |rest| ensures DeviceOk(gs, rest[i]) {
      assert rest[i] == devs[if i < n then i else i + 1];
    }
  }

  lemma OkHasParts(gs: Geometries, d: Device)
    requires DeviceOk(gs, d)
    ensures IdOk(d.id) && 0 < |d.parts| <= MAX_PARTS && d.numParts == |d.parts| && Sorted(d.parts)
  {
  }

  lemma AddToOk(gs: Geometries, t: Table, key: DevKey, p: Part)
    requires TableOk(gs, t) && Enabled(gs, t, AddPart(key, p))
    ensures TableOk(gs, AddTo(gs, t, key, p))
    ensures t.cur.Some? ==> AddTo(gs, t, key, p).cur == t.cur && Named(gs, AddTo(gs, t, key, p)) == Named(gs, t)
  {
    hide InDevice, Position, SortAdd, Insert;
    var d := DeviceAt(t, key);
    var v := Validated(GeometryOf(gs, key), d.id, p);
    if v.Some? {
      SortAddIsInsert(d.parts, v.value);
      var parts := Insert(d.parts, v.value);
      InsertSorted(d.parts, v.value);
      InsertMembers(d.parts, v.value);
      assert forall i :: 0 <= i < |parts| ==> parts[i] in parts;
      var num := if t.cur == Some(key) && t.num < |d.parts| then IndexAfterInsert(d.parts, t.num, v.value) else t.num;
      if t.cur == Some(key) {
        InsertTracks(d.parts, t.num, v.value);
      }
      WithPartsOk(gs, t, key, parts, num);
    }
  }

  lemma DelFromOk(gs: Geometries, t: Table, key: DevKey, i: nat)
    requires TableOk(gs, t) && Enabled(gs, t, DelPart(key, i))
    ensures TableOk(gs, DelFrom(t, key, i))
    ensures t.cur.Some? && !HitsCurrent(t, DelPart(key, i)) ==>
      DelFrom(t, key, i).cur == t.cur && Named(gs, DelFrom(t, key, i)) == Named(gs, t)
  {
    hide DeviceOk, DevIndex;
    var d := DeviceAt(t, key);
    CountOk(gs, d);
    if d.numParts == 1 {
      WithoutDeviceOk(gs, t, key);
    } else {
      var parts := Remove(d.parts, i);
      RemovedOk(gs, d, i);
      var num := if t.cur == Some(key) && t.num < |d.parts| then IndexAfterRemove(d.parts, t.num, i) else t.num;
      if t.cur == Some(key) && i != t.num && !Misleads(t, key, i) {
        RemoveTracksIff(d.parts, t.num, i);
      }
      WithPartsOk(gs, t, key, parts, num);
    }
  }

  lemma CountOk(gs: Geometries, d: Device)
    requires DeviceOk(gs, d)
    ensures d.numParts == |d.parts|
  {
  }

  lemma RemovedOk(gs: Geometries, d: Device, i: nat)
    requires DeviceOk(gs, d) && i < |d.parts| && d.numParts != 1
    ensures Sorted(d.parts) && |d.parts| <= MAX_PARTS && |Remove(d.parts, i)| == |d.parts| - 1 > 0
    ensures DeviceOk(gs, d.(parts := Remove(d.parts, i), numParts := |Remove(d.parts, i)|))
  {
    hide InDevice;
    var parts := Remove(d.parts, i);
    RemoveSorted(d.parts, i);
    assert forall k :: 0 <= k < |parts| ==> parts[k] in parts;
  }

  /** What a deletion tied behind the current partition does to a valid table: the number moves one down, so the
      partition before the current one is named, and from 0 it leaves the list and the table is no longer valid. */
  lemma TiedDeletion(gs: Geometries, t: Table, key: DevKey, i: nat)
    requires TableOk(gs, t) && Present(t, key) && i < |DeviceAt(t, key).parts| && Misleads(t, key, i)
    ensures TableOk(gs, DelFrom(t, key, i)) <==> t.num > 0
    ensures t.num > 0 ==> Named(gs, DelFrom(t, key, i)) == Some(DeviceAt(t, key).parts[t.num - 1])
    ensures Present(DelFrom(t, key, i), key)
    ensures t.num == 0 ==> DelFrom(t, key, i).num == 255 >= |DeviceAt(DelFrom(t, key, i), key).parts|
  {
    hide InDevice;
    var d := DeviceAt(t, key);
    var parts := Remove(d.parts, i);
    RemoveSorted(d.parts, i);
    assert forall k :: 0 <= k < |parts| ==> parts[k] in parts;
    var num := IndexAfterRemove(d.parts, t.num, i);
    SameDevice(t, key, parts, num);
    assert DelFrom(t, key, i) == WithParts(t, key, parts, num) && num == (if t.num > 0 then t.num - 1 else 255);
    if t.num > 0 {
      WithPartsOk(gs, t, key, parts, num);
    }
  }

  lemma SameDevice(t: Table, key: DevKey, parts: seq<Part>, num: nat)
    requires DistinctKeys(t.devs) && Present(t, key)
    ensures Present(WithParts(t, key, parts, num), key) && DeviceAt(WithParts(t, key, parts, num), key).parts == parts
  {
    var n, t' := DevIndex(t.devs, key), WithParts(t, key, parts, num);
    assert forall k :: 0 <= k < |t.devs| ==> t'.devs[k].id == t.devs[k].id;
    DevIndexUnique(t'.devs, n);
  }

  /** One step keeps the table valid, and the current partition keeps being named unless it is hit. */
  lemma StepOk(gs: Geometries, t: Table, op: Op)
    requires TableOk(gs, t) && Enabled(gs, t, op)
    ensures TableOk(gs, Step(gs, t, op))
    ensures t.cur.Some? && !HitsCurrent(t, op) ==>
      Step(gs, t, op).cur == t.cur && Named(gs, Step(gs, t, op)) == Named(gs, t)
  {
    hide AddTo, DelFrom, WithoutDevice;
    match op {
      case AddPart(key, p) => AddToOk(gs, t, key, p);
      case DelPart(key, i) => DelFromOk(gs, t, key, i);
      case DelDevice(key) => WithoutDeviceOk(gs, t, key);
      case AddDevice(dev) =>
        OkHasParts(gs, dev);
        var devs := t.devs + [dev];
        DevIndexUnique(devs, |t.devs|);
        if t.cur.Some? {
          DevIndexUnique(devs, DevIndex(t.devs, t.cur.value));
        }
      case ChangePart(key, n) =>
    }
  }

  ghost predicate RunEnabled(gs: Geometries, t: Table, ops: seq<Op>)
    decreases |ops|
  {
    ops != [] ==> Enabled(gs, t, ops[0]) && RunEnabled(gs, Step(gs, t, ops[0]), ops[1..])
  }

  ghost function Run(gs: Geometries, t: Table, ops: seq<Op>): Table
    requires RunEnabled(gs, t, ops)
    decreases |ops|
  {
    if ops == [] then t else Run(gs, Step(gs, t, ops[0]), ops[1..])
  }

  ghost predicate NeverHit(gs: Geometries, t: Table, ops: seq<Op>)
    requires RunEnabled(gs, t, ops)
    decreases |ops|
  {
    ops != [] ==> !HitsCurrent(t, ops[0]) && NeverHit(gs, Step(gs, t, ops[0]), ops[1..])
  }

  /** Over every run: the table stays valid (so every partition in it lies in its device, on erase-block
      boundaries), and as long as nothing hits it the current partition is the same one. */
  lemma {:induction false} RunOk(gs: Geometries, t: Table, ops: seq<Op>)
    requires TableOk(gs, t) && RunEnabled(gs, t, ops)
    ensures TableOk(gs, Run(gs, t, ops))
    ensures t.cur.Some? && NeverHit(gs, t, ops) ==>
      Run(gs, t, ops).cur == t.cur && Named(gs, Run(gs, t, ops)) == Named(gs, t)
    decreases |ops|
  {
    hide Enabled, Step, HitsCurrent, TableOk;
    if ops != [] {
      StepOk(gs, t, ops[0]);
      RunOk(gs, Step(gs, t, ops[0]), ops[1..]);
    }
  }

  // ----- the global index

  function AllParts(devs: seq<Device>): seq<Part> {
    if devs == [] then [] else devs[0].parts + AllParts(devs[1..])
  }

  function Before(devs: seq<Device>, n: nat): nat
    requires n <= |devs|
  {
    if n == 0 then 0 else Before(devs, n - 1) + devs[n - 1].numParts
  }

  /** `mtddevnum`: partitions of earlier devices, plus the number within the current one. */
  function Rank(t: Table): nat
    requires t.cur.Some? && Present(t, t.cur.value)
  {
    Before(t.devs, DevIndex(t.devs, t.cur.value)) + t.num
  }

  lemma {:induction false} AllPartsSplit(devs: seq<Device>, n: nat)
    requires n < |devs| && forall i :: 0 <= i < |devs| ==> devs[i].numParts == |devs[i].parts|
    ensures |AllParts(devs)| >= Before(devs, n) + |devs[n].parts|
    ensures AllParts(devs)[Before(devs, n)..Before(devs, n) + |devs[n].parts|] == devs[n].parts
    decreases |devs|
  {
    hide Before, AllParts;
    AllPartsHead(devs);
    if n == 0 {
      NoneBefore(devs);
      assert (devs[0].parts + AllParts(devs[1..]))[..|devs[0].parts|] == devs[0].parts;
    } else {
      AllPartsSplit(devs[1..], n - 1);
      BeforeTail(devs, n);
      SliceOfTail(devs[0].parts, AllParts(devs[1..]), Before(devs[1..], n - 1), |devs[n].parts|);
    }
  }

  lemma AllPartsHead(devs: seq<Device>)
    requires devs != []
    ensures AllParts(devs) == devs[0].parts + AllParts(devs[1..])
  {
  }

  lemma NoneBefore(devs: seq<Device>)
    ensures Before(devs, 0) == 0
  {
  }

  lemma SliceOfTail(a: seq<Part>, rest: seq<Part>, b: nat, len: nat)
    requires b + len <= |rest|
    ensures (a + rest)[|a| + b..|a| + b + len] == rest[b..b + len]
  {
  }

  lemma {:induction false} BeforeTail(devs: seq<Device>, n: nat)
    requires 0 < n <= |devs|
    ensures Before(devs, n) == devs[0].numParts + Before(devs[1..], n - 1)
  {
    if n > 1 {
      BeforeTail(devs, n - 1);
    }
  }

  /** The current partition is the one at its rank in the concatenation of all partition lists. */
  lemma RankIsPosition(gs: Geometries, t: Table)
    requires TableOk(gs, t) && t.cur.Some?
    ensures Rank(t) < |AllParts(t.devs)|
    ensures Some(AllParts(t.devs)[Rank(t)]) == Named(gs, t)
  {
    hide AllParts, Before, InDevice, DevIndex;
    var n := DevIndex(t.devs, t.cur.value);
    AllPartsSplit(t.devs, n);
    var all, b := AllParts(t.devs), Before(t.devs, n);
    assert all[b..b + |t.devs[n].parts|][t.num] == all[b + t.num];
  }

  /** The environment variables that follow the table. */
  datatype Variables = Variables(mtddevnum: Option<nat>, mtddevname: Option<PartName>, partition: Option<(DevKey, nat)>)

  ghost function VariablesFor(gs: Geometries, t: Table): Variables
    requires TableOk(gs, t)
  {
    if t.cur == None then Variables(None, None, None)
    else Variables(Some(Rank(t) % 0x1_0000), Some(Named(gs, t).value.name), Some((t.cur.value, t.num)))
  }

  lemma PartitionVariable(gs: Geometries, t: Table)
    requires TableOk(gs, t)
    ensures VariablesFor(gs, t).partition == if t.cur == None then None else Some((t.cur.value, t.num))
  {
    hide TableOk, Rank;
  }

  // ----- what the parser produces is a valid table

  /** A partition definition takes at least two characters, or is a final '-'. */
  lemma PartParseConsumes(s: string)
    requires PartParse(s).Some?
    ensures var rest := PartParse(s).value.1;
      |rest| + 2 <= |s| || (|rest| + 1 <= |s| && (rest == "" || rest[0] == ';'))
  {
    hide Digits;
    if First(s) != '-' {
      SizeConsumes(s);
      var s1 := ReadSize(s).value.1;
      if First(s1) == '@' {
        MemsizeNeverGrows(s1[1..]);
      }
    } else if First(s[1..]) == '@' {
      MemsizeNeverGrows(s[2..]);
      assert s[1..][1..] == s[2..];
    }
  }

  lemma MemsizeNeverGrows(s: string)
    ensures |MemsizeParse(s).1| <= |s|
  {
    hide Digits;
  }

  lemma SizeConsumes(s: string)
    requires MemsizeParse(s).0 >= MIN_PART_SIZE
    ensures |MemsizeParse(s).1| + 2 <= |s|
  {
    hide Digits;
    StrtoulConsumes(s);
  }

  /** Nothing read is 0, and one character read is a single digit. */
  lemma StrtoulConsumes(s: string)
    ensures |Strtoul(s).1| >= |s| ==> Strtoul(s).0 == 0
    ensures |Strtoul(s).1| + 1 >= |s| ==> Strtoul(s).0 < 16
  {
    if First(s) == '0' {
      DigitsConsume(s[1..], 8);
      if |s| > 2 {
        DigitsSuffix(s[2..], 16, 0);
      }
    } else {
      DigitsConsume(s, 10);
    }
  }

  lemma DigitsConsume(s: string, base: nat)
    requires 0 < base <= 16
    ensures |Digits(s, base, 0).1| >= |s| ==> Digits(s, base, 0).0 == 0
    ensures |Digits(s, base, 0).1| + 1 >= |s| ==> Digits(s, base, 0).0 < 16
    ensures |Digits(s, base, 0).1| <= |s|
  {
    if s != "" && DigitValue(s[0]) < base {
      var t, a := s[1..], DigitValue(s[0]) % WRAP;
      DigitsSuffix(t, base, a);
      if t != "" && DigitValue(t[0]) < base {
        DigitsSuffix(t[1..], base, (a * base + DigitValue(t[0])) % WRAP);
      } else {
        assert Digits(t, base, a) == (a, t);
      }
    }
  }

  lemma {:induction false} PartsParseOk(g: Option<Geometry>, id: MtdId, offset: nat, s: string)
    requires PartsParse(g, id, offset, s).Some?
    ensures var parts := PartsParse(g, id, offset, s).value.0;
      && 2 * |parts| <= |s| + 1
      && (parts != [] ==> g.Some?)
      && forall i :: 0 <= i < |parts| ==> InDevice(g.value, id, parts[i])
    decreases |s|
  {
    hide PartParse, InDevice;
    if s != "" && s[0] != ';' {
      var (p, rest) := PartParse(s).value;
      PartParseConsumes(s);
      PartParseShrinks(s);
      var v := Validated(g, id, p.(offset := if p.offset == OFFSET_NOT_SPECIFIED then offset else p.offset)).value;
      PartsParseOk(g, id, (v.offset + v.size) % WRAP, rest);
    }
  }

  lemma {:induction false} SortAllOk(parts: seq<Part>, news: seq<Part>)
    requires Sorted(parts) && SortAll(parts, news).Some?
    ensures var r := SortAll(parts, news).value;
      Sorted(r) && |r| == |parts| + |news| && forall q :: q in r ==> q in parts || q in news
    decreases |news|
  {
    hide Position, Insert;
    if news != [] {
      SortAddIsInsert(parts, news[0]);
      InsertSorted(parts, news[0]);
      InsertMembers(parts, news[0]);
      SortAllOk(Insert(parts, news[0]), news[1..]);
      assert forall q :: q in news[1..] ==> q in news;
    }
  }

  const MTDPARTS_MAXLEN: nat := 512

  predicate IdsOk(ids: seq<MtdId>) {
    forall i :: 0 <= i < |ids| ==> IdOk(ids[i])
  }

  lemma {:induction false} FindIdOk(ids: seq<MtdId>, name: string)
    requires IdsOk(ids)
    ensures FindId(ids, name).Some? ==> IdOk(FindId(ids, name).value)
  {
    if ids != [] {
      FindIdOk(ids[1..], name);
    }
  }

  lemma DeviceParseOk(ids: seq<MtdId>, gs: Geometries, devs: seq<Device>, s: string)
    requires IdsOk(ids) && DeviceParse(ids, gs, devs, s).Some? && |s| < MTDPARTS_MAXLEN
    ensures DeviceOk(gs, DeviceParse(ids, gs, devs, s).value.0)
  {
    hide PartsParse, InDevice, SortAll, FindId, IndexOf;
    var n := IndexOf(s, ':');
    FindIdOk(ids, s[..n]);
    var id := FindId(ids, s[..n]).value;
    var g := GeometryOf(gs, id.key);
    var parts := PartsParse(g, id, StartOffset(devs, id.key), s[n + 1..]).value.0;
    PartsParseOk(g, id, StartOffset(devs, id.key), s[n + 1..]);
    SortAllOk([], parts);
    var sorted := SortAll([], parts).value;
    forall i | 0 <= i < |sorted| ensures InDevice(gs[id.key], id, sorted[i]) {
      assert sorted[i] in parts;
    }
  }

  lemma {:induction false} DevicesParseOk(ids: seq<MtdId>, gs: Geometries, devs: seq<Device>, s: string)
    requires IdsOk(ids) && DevicesParse(ids, gs, devs, s).Some? && |s| < MTDPARTS_MAXLEN
    requires DistinctKeys(devs) && forall i :: 0 <= i < |devs| ==> DeviceOk(gs, devs[i])
    ensures var r := DevicesParse(ids, gs, devs, s).value;
      && DistinctKeys(r) && (forall i :: 0 <= i < |r| ==> DeviceOk(gs, r[i]))
      && |r| >= |devs| && (s != "" ==> r != [])
    decreases |s|
  {
    hide DeviceParse, DeviceOk;
    if s != "" {
      var (dev, rest) := DeviceParse(ids, gs, devs, s).value;
      DeviceParseOk(ids, gs, devs, s);
      DeviceParseShrinks(ids, gs, devs, s);
      FindDeviceNone(devs, dev.id.key);
      DevicesParseOk(ids, gs, devs + [dev], rest);
    }
  }

  /** A table built from any accepted text satisfies the invariant, with its first partition current. */
  lemma ParsedTableOk(ids: seq<MtdId>, gs: Geometries, text: string)
    requires IdsOk(ids) && |text| < MTDPARTS_MAXLEN && ParseMtdparts(ids, gs, text).Some?
    ensures var devs := ParseMtdparts(ids, gs, text).value;
      devs != [] && TableOk(gs, Table(devs, Some(devs[0].id.key), 0))
  {
    hide DevicesParse, DeviceOk;
    DevicesParseOk(ids, gs, [], text[|PREFIX|..]);
    var devs := ParseMtdparts(ids, gs, text).value;
    OkHasParts(gs, devs[0]);
    DevIndexUnique(devs, 0);
  }
}
