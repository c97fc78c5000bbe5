/** Resource forks (`emu/rsrc/resource_file.cc`): what `Save` lays out, `LoadRsrcFork` reads back. */
module ResourceForks {
  import opened Memory
  import opened Typegen

  // ---- The structs of the file (`emu/rsrc/resource_types.tdef`) ---------------------------------

  const U8 := Integer(1, false)
  const U16 := Integer(2, false)
  const U32 := Integer(4, false)

  const HEADER := [Member("data_offset", U32), Member("map_offset", U32),
                   Member("data_length", U32), Member("map_length", U32)]
  const MAP_HEADER := [Member("file_header", Struct(HEADER)), Member("next_map_handle", U32),
                       Member("file_ref_number", U16), Member("file_attributes", U16),
                       Member("type_list_offset", U16), Member("name_list_offset", U16)]
  const TYPE_ITEM := [Member("type_id", U32), Member("count", U16), Member("offset", U16)]
  const ENTRY := [Member("id", U16), Member("name_offset", U16), Member("attributes", U8),
                  Member("data_offset", U24), Member("handle", U32)]

  const MAP_HEADER_SIZE: nat := 28
  const TYPE_ITEM_SIZE: nat := 8
  const ENTRY_SIZE: nat := 12
  const DATA_OFFSET: nat := 0x100
  const NO_NAME := 0xFFFF

  datatype Resource = Resource(id: nat, name: seq<Byte>, attributes: nat, data: seq<Byte>)

  datatype Group = Group(typeId: nat, resources: seq<Resource>)

  // ---- Where things go --------------------------------------------------------------------------

  function Flatten(groups: seq<Group>): seq<Resource> {
    if groups == [] then [] else
      var n := |groups| - 1;
      Flatten(groups[..n]) + groups[n].resources
  }

  ghost function DataItem(r: Resource): seq<Byte>
    requires |r.data| < 0x1_0000_0000
  {
    BigEndian(|r.data|, 4) + r.data
  }

  ghost function NameItem(r: Resource): seq<Byte>
    requires |r.name| < 255
  {
    if r.name == [] then [] else [|r.name|] + r.name
  }

  ghost function DataLength(rs: seq<Resource>): nat {
    if rs == [] then 0 else
      var n := |rs| - 1;
      DataLength(rs[..n]) + 4 + |rs[n].data|
  }

  ghost function NameLength(rs: seq<Resource>): nat {
    if rs == [] then 0 else
      var n := |rs| - 1;
      NameLength(rs[..n]) + if rs[n].name == [] then 0 else 1 + |rs[n].name|
  }

  ghost predicate Fits(r: Resource) {
    r.id < 0x1_0000 && r.attributes < 0x100 && |r.name| < 255 && |r.data| < 0x1_0000_0000
  }

  /** The limits of the format: list offsets of 16 bits, data offsets of 24, lengths of 32. */
  ghost predicate WithinLimits(groups: seq<Group>) {
    var rs := Flatten(groups);
    && groups != []
    && (forall g :: 0 <= g < |groups| ==> groups[g].typeId < 0x1_0000_0000 && groups[g].resources != [])
    && (forall k :: 0 <= k < |rs| ==> Fits(rs[k]) && DataLength(rs[..k]) < 0x100_0000)
    && MAP_HEADER_SIZE + EntriesEnd(groups) <= 0xFFFF && NameLength(rs) <= 0xFFFF
    && DATA_OFFSET + DataLength(rs) + MapLength(groups) < 0x1_0000_0000
  }

  ghost function TypesEnd(groups: seq<Group>): nat { 2 + TYPE_ITEM_SIZE * |groups| }

  ghost function EntriesEnd(groups: seq<Group>): nat { TypesEnd(groups) + ENTRY_SIZE * |Flatten(groups)| }

  ghost function MapLength(groups: seq<Group>): nat {
    MAP_HEADER_SIZE + EntriesEnd(groups) + NameLength(Flatten(groups))
  }

  ghost function MapAt(groups: seq<Group>): nat { DATA_OFFSET + DataLength(Flatten(groups)) }

  ghost function TypesAt(groups: seq<Group>): nat { MapAt(groups) + MAP_HEADER_SIZE }

  ghost function EntriesAt(groups: seq<Group>): nat { TypesAt(groups) + TypesEnd(groups) }

  ghost function NamesAt(groups: seq<Group>): nat { TypesAt(groups) + EntriesEnd(groups) }

  ghost function HeaderValues(groups: seq<Group>): seq<Value> {
    var length := DataLength(Flatten(groups));
    [Num(DATA_OFFSET), Num(DATA_OFFSET + length), Num(length), Num(MapLength(groups))]
  }

  ghost function MapHeaderValues(groups: seq<Group>): seq<Value> {
    [Fields(HeaderValues(groups)), Num(0), Num(0), Num(0), Num(MAP_HEADER_SIZE),
     Num(MAP_HEADER_SIZE + EntriesEnd(groups))]
  }

  ghost function TypeItemOf(groups: seq<Group>, g: nat): seq<Value>
    requires g < |groups|
  {
    [Num(groups[g].typeId), Num(|groups[g].resources| - 1),
     Num(TypesEnd(groups) + ENTRY_SIZE * |Flatten(groups[..g])|)]
  }

  ghost function EntryOf(rs: seq<Resource>, k: nat): seq<Value>
    requires k < |rs|
  {
    [Num(rs[k].id), Num(if rs[k].name == [] then NO_NAME else NameLength(rs[..k])),
     Num(rs[k].attributes), Num(DataLength(rs[..k])), Num(0)]
  }

  ghost function TypeItems(groups: seq<Group>): (rows: seq<seq<Value>>)
    ensures |rows| == |groups| && forall g :: 0 <= g < |groups| ==> rows[g] == TypeItemOf(groups, g)
  {
    seq(|groups|, g requires 0 <= g < |groups| => TypeItemOf(groups, g))
  }

  ghost function Entries(rs: seq<Resource>): (rows: seq<seq<Value>>)
    ensures |rows| == |rs| && forall k :: 0 <= k < |rs| ==> rows[k] == EntryOf(rs, k)
  {
    seq(|rs|, k requires 0 <= k < |rs| => EntryOf(rs, k))
  }

  // ---- The bytes --------------------------------------------------------------------------------

  ghost predicate AllFit(rs: seq<Resource>) {
    forall k :: 0 <= k < |rs| ==> Fits(rs[k])
  }

  ghost function DataArea(rs: seq<Resource>): (s: seq<Byte>)
    requires AllFit(rs)
    ensures |s| == DataLength(rs)
  {
    if rs == [] then [] else
      var n := |rs| - 1;
      DataArea(rs[..n]) + DataItem(rs[n])
  }

  ghost function NameArea(rs: seq<Resource>): (s: seq<Byte>)
    requires AllFit(rs)
    ensures |s| == NameLength(rs)
  {
    if rs == [] then [] else
      var n := |rs| - 1;
      NameArea(rs[..n]) + NameItem(rs[n])
  }

  ghost predicate AllValid(members: seq<Member>, rows: seq<seq<Value>>) {
    forall k :: 0 <= k < |rows| ==> ValidAll(members, rows[k])
  }

  /** Structs one after the other. */
  ghost function Table(members: seq<Member>, rows: seq<seq<Value>>): (s: seq<Byte>)
    requires AllValid(members, rows)
  {
    if rows == [] then [] else
      var n := |rows| - 1;
      Table(members, rows[..n]) + SerializeAll(members, rows[n])
  }

  lemma {:induction false} TableLength(members: seq<Member>, rows: seq<seq<Value>>)
    requires AllValid(members, rows) && NoStringsAll(members)
    ensures |Table(members, rows)| == CheckedSizes(members) * |rows|
  {
    if rows != [] {
      var n := |rows| - 1;
      TableLength(members, rows[..n]);
      RowLength(members, rows[n]);
      hide *;
      TableStep(members, rows);
      OneMore(CheckedSizes(members), n);
    }
  }

  lemma TableStep(members: seq<Member>, rows: seq<seq<Value>>)
    requires AllValid(members, rows) && rows != []
    ensures ValidAll(members, rows[|rows| - 1]) && AllValid(members, rows[..|rows| - 1])
    ensures Table(members, rows) == Table(members, rows[..|rows| - 1]) + SerializeAll(members, rows[|rows| - 1])
  {
  }

  lemma OneMore(c: nat, n: nat)
    ensures c * (n + 1) == c * n + c
  {
  }

  lemma RowLength(members: seq<Member>, values: seq<Value>)
    requires ValidAll(members, values) && NoStringsAll(members)
    ensures |SerializeAll(members, values)| == CheckedSizes(members)
  {
    NoStringsEmpty(Struct(members), Fields(values));
    CheckedAllLeast(members, values);
  }

  lemma StructSizes()
    ensures NoStringsAll(HEADER) && CheckedSizes(HEADER) == 16
    ensures NoStringsAll(MAP_HEADER) && CheckedSizes(MAP_HEADER) == MAP_HEADER_SIZE
    ensures NoStringsAll(TYPE_ITEM) && CheckedSizes(TYPE_ITEM) == TYPE_ITEM_SIZE
    ensures NoStringsAll(ENTRY) && CheckedSizes(ENTRY) == ENTRY_SIZE
  {
    CheckedFour(HEADER);
    CheckedThree(TYPE_ITEM);
    assert ENTRY[..4] + [ENTRY[4]] == ENTRY;
    CheckedFour(ENTRY[..4]);
    assert MAP_HEADER[..5][..4] == MAP_HEADER[..4] && MAP_HEADER[..5][4] == MAP_HEADER[4];
    CheckedFour(MAP_HEADER[..4]);
  }

  lemma CheckedThree(ms: seq<Member>)
    requires |ms| == 3
    ensures CheckedSizes(ms) == CheckedSize(ms[0].ty) + CheckedSize(ms[1].ty) + CheckedSize(ms[2].ty)
  {
    assert ms[..2][..1] == ms[..1] && ms[..1][..0] == [];
    assert CheckedSizes(ms[..1]) == CheckedSizes([]) + CheckedSize(ms[0].ty);
  }

  lemma CheckedFour(ms: seq<Member>)
    requires |ms| == 4
    ensures CheckedSizes(ms) == CheckedSize(ms[0].ty) + CheckedSize(ms[1].ty) + CheckedSize(ms[2].ty)
            + CheckedSize(ms[3].ty)
  {
    CheckedThree(ms[..3]);
  }

  // ---- What the limits give ---------------------------------------------------------------------

  lemma Powers()
    ensures Pow256(1) == 0x100 && Pow256(2) == 0x1_0000 && Pow256(3) == 0x100_0000 && Pow256(4) == 0x1_0000_0000
  {
    assert Pow256(0) == 1;
  }

  lemma {:induction false} FlattenPrefix(groups: seq<Group>, g: nat)
    requires g < |groups|
    ensures Flatten(groups[..g + 1]) == Flatten(groups[..g]) + groups[g].resources
    ensures |Flatten(groups[..g + 1])| <= |Flatten(groups)|
    ensures Flatten(groups)[..|Flatten(groups[..g + 1])|] == Flatten(groups[..g + 1])
    decreases |groups|
  {
    var n := |groups| - 1;
    assert groups[..g + 1][..g] == groups[..g];
    if g == n {
      assert groups[..g + 1] == groups;
    } else {
      assert groups[..n][..g + 1] == groups[..g + 1];
      assert groups[..n][..g] == groups[..g];
      FlattenPrefix(groups[..n], g);
    }
  }

  lemma {:induction false} LengthPrefix(rs: seq<Resource>, k: nat)
    requires k <= |rs|
    ensures DataLength(rs[..k]) <= DataLength(rs) && NameLength(rs[..k]) <= NameLength(rs)
    decreases |rs|
  {
    if k == |rs| {
      assert rs[..k] == rs;
    } else {
      assert rs[..|rs| - 1][..k] == rs[..k];
      LengthPrefix(rs[..|rs| - 1], k);
    }
  }

  lemma {:induction false} LengthStep(rs: seq<Resource>, k: nat)
    requires k < |rs|
    ensures DataLength(rs[..k + 1]) == DataLength(rs[..k]) + 4 + |rs[k].data|
    ensures NameLength(rs[..k + 1]) == NameLength(rs[..k]) + if rs[k].name == [] then 0 else 1 + |rs[k].name|
  {
    assert rs[..k + 1][..k] == rs[..k];
  }

  lemma UnsignedValid(width: nat, n: nat)
    requires n < Pow256(width)
    ensures Valid(Integer(width, false), Num(n))
  {
  }

  lemma HeaderValid(a: nat, b: nat, c: nat, d: nat)
    requires a < 0x1_0000_0000 && b < 0x1_0000_0000 && c < 0x1_0000_0000 && d < 0x1_0000_0000
    ensures ValidAll(HEADER, [Num(a), Num(b), Num(c), Num(d)])
  {
    Powers();
    UnsignedValid(4, a);
    UnsignedValid(4, b);
    UnsignedValid(4, c);
    UnsignedValid(4, d);
    hide Pow256, Valid, Shape;
  }

  lemma MapHeaderValid(header: seq<Value>, types: nat, names: nat)
    requires ValidAll(HEADER, header) && types < 0x1_0000 && names < 0x1_0000
    ensures ValidAll(MAP_HEADER, [Fields(header), Num(0), Num(0), Num(0), Num(types), Num(names)])
  {
    Powers();
    UnsignedValid(4, 0);
    UnsignedValid(2, 0);
    UnsignedValid(2, types);
    UnsignedValid(2, names);
    assert Valid(Struct(HEADER), Fields(header));
    hide Pow256, Valid, Shape, HEADER;
  }

  lemma TypeItemValid(typeId: nat, count: nat, offset: nat)
    requires typeId < 0x1_0000_0000 && count < 0x1_0000 && offset < 0x1_0000
    ensures ValidAll(TYPE_ITEM, [Num(typeId), Num(count), Num(offset)])
  {
    Powers();
    UnsignedValid(4, typeId);
    UnsignedValid(2, count);
    UnsignedValid(2, offset);
    hide Pow256, Valid, Shape;
  }

  lemma EntryValid(id: nat, nameOffset: nat, attributes: nat, dataOffset: nat)
    requires id < 0x1_0000 && nameOffset < 0x1_0000 && attributes < 0x100 && dataOffset < 0x100_0000
    ensures ValidAll(ENTRY, [Num(id), Num(nameOffset), Num(attributes), Num(dataOffset), Num(0)])
  {
    Powers();
    UnsignedValid(2, id);
    UnsignedValid(2, nameOffset);
    UnsignedValid(1, attributes);
    UnsignedValid(4, 0);
    assert Valid(U24, Num(dataOffset));
    hide Pow256, Valid, Shape;
  }

  /** Everything written fits the field it is written to. */
  lemma RecordsValid(groups: seq<Group>)
    requires WithinLimits(groups)
    ensures ValidAll(HEADER, HeaderValues(groups)) && ValidAll(MAP_HEADER, MapHeaderValues(groups))
    ensures AllValid(TYPE_ITEM, TypeItems(groups))
    ensures AllFit(Flatten(groups)) && AllValid(ENTRY, Entries(Flatten(groups)))
  {
    hide ValidAll, Flatten, DataLength, NameLength, HEADER, MAP_HEADER, TYPE_ITEM, ENTRY;
    var rs := Flatten(groups);
    var h := HeaderValues(groups);
    HeaderValid(h[0].n, h[1].n, h[2].n, h[3].n);
    MapHeaderValid(h, MAP_HEADER_SIZE, MAP_HEADER_SIZE + EntriesEnd(groups));
    forall g | 0 <= g < |groups| ensures ValidAll(TYPE_ITEM, TypeItems(groups)[g]) {
      FlattenPrefix(groups, g);
      TypeItemValid(groups[g].typeId, |groups[g].resources| - 1,
                    TypesEnd(groups) + ENTRY_SIZE * |Flatten(groups[..g])|);
    }
    forall k | 0 <= k < |rs| ensures ValidAll(ENTRY, Entries(rs)[k]) {
      LengthPrefix(rs, k);
      var e := EntryOf(rs, k);
      EntryValid(e[0].n, e[1].n, e[2].n, e[3].n);
    }
  }

  /** The bytes hold the fork of these groups: the header, then from 0x100 the data, and the map after the data. */
  ghost predicate Laid(bytes: seq<Byte>, groups: seq<Group>)
    requires WithinLimits(groups)
  {
    RecordsValid(groups);
    var rs := Flatten(groups);
    && |bytes| == MapAt(groups) + MapLength(groups)
    && HoldsAt(bytes, 0, SerializeAll(HEADER, HeaderValues(groups)))
    && HoldsAt(bytes, DATA_OFFSET, DataArea(rs))
    && HoldsAt(bytes, MapAt(groups), SerializeAll(MAP_HEADER, MapHeaderValues(groups)))
    && HoldsAt(bytes, TypesAt(groups), BigEndian(|groups| - 1, 2))
    && HoldsAt(bytes, TypesAt(groups) + 2, Table(TYPE_ITEM, TypeItems(groups)))
    && HoldsAt(bytes, EntriesAt(groups), Table(ENTRY, Entries(rs)))
    && HoldsAt(bytes, NamesAt(groups), NameArea(rs))
  }

  // ---- Loading ----------------------------------------------------------------------------------

  /** A region within the file. */
  datatype View = View(base: nat, size: nat)

  /** A part of a region. Only the end of the file limits it. */
  function Part(fileSize: nat, view: View, offset: nat, size: nat): Result<View> {
    if fileSize < view.base + offset + size then OutOfRange else Ok(View(view.base + offset, size))
  }

  function Rest(fileSize: nat, view: View, offset: nat): Result<View> {
    Part(fileSize, view, offset, if view.size > offset then view.size - offset else 0)
  }

  predicate IsUnsigned(ty: Type) {
    ty.U24? || (ty.Integer? && !ty.signed)
  }

  lemma NumbersIn(members: seq<Member>, values: seq<Value>)
    requires ShapeAll(members, values)
    ensures |values| == |members|
    ensures forall k :: 0 <= k < |members| && IsUnsigned(members[k].ty) ==> values[k].Num? && values[k].n >= 0
  {
    assert forall k :: 0 <= k < |members| ==> Shape(members[k].ty, values[k]);
  }

  /** One resource: its data after a length, its name where the entry says, if it has one. */
  ghost function LoadedResource(data: seq<Byte>, names: nat, contents: nat, entry: seq<Value>): Result<Resource>
    requires ShapeAll(ENTRY, entry)
  {
    NumbersIn(ENTRY, entry);
    var start := contents + entry[3].n;
    var size := Parse(U32, data, start);
    if !size.Ok? then Failed(size) else
    if |data| < start + 4 + size.value.n then OutOfRange else
    var name := if entry[1].n == NO_NAME then Ok(Bytes([])) else Parse(Str, data, names + entry[1].n);
    if !name.Ok? then Failed(name) else
    Ok(Resource(entry[0].n, name.value.bytes, entry[2].n, data[start + 4..start + 4 + size.value.n]))
  }

  ghost function LoadedResources(data: seq<Byte>, names: nat, contents: nat, start: nat,
                                 n: nat): Result<seq<Resource>> {
    if n == 0 then Ok([]) else
    var before := LoadedResources(data, names, contents, start, n - 1);
    if !before.Ok? then before else
    var entry := ParseAll(ENTRY, data, start + ENTRY_SIZE * (n - 1));
    if !entry.Ok? then Failed(entry) else
    var r := LoadedResource(data, names, contents, entry.value);
    if r.Ok? then Ok(before.value + [r.value]) else Failed(r)
  }

  ghost function LoadedGroup(data: seq<Byte>, types: nat, names: nat, contents: nat, item: seq<Value>): Result<Group>
    requires ShapeAll(TYPE_ITEM, item)
  {
    NumbersIn(TYPE_ITEM, item);
    var rs := LoadedResources(data, names, contents, types + item[2].n, item[1].n + 1);
    if rs.Ok? then Ok(Group(item[0].n, rs.value)) else Failed(rs)
  }

  ghost function LoadedGroups(data: seq<Byte>, types: nat, names: nat, contents: nat, n: nat): Result<seq<Group>> {
    if n == 0 then Ok([]) else
    var before := LoadedGroups(data, types, names, contents, n - 1);
    if !before.Ok? then before else
    var item := ParseAll(TYPE_ITEM, data, types + 2 + TYPE_ITEM_SIZE * (n - 1));
    if !item.Ok? then Failed(item) else
    var g := LoadedGroup(data, types, names, contents, item.value);
    if g.Ok? then Ok(before.value + [g.value]) else Failed(g)
  }

  /** The groups a file holds. */
  ghost function LoadedFork(data: seq<Byte>): Result<seq<Group>> {
    var header := ParseAll(HEADER, data, 0);
    if !header.Ok? then Failed(header) else
    NumbersIn(HEADER, header.value);
    var mapHeader := ParseAll(MAP_HEADER, data, header.value[1].n);
    if !mapHeader.Ok? then Failed(mapHeader) else
    NumbersIn(MAP_HEADER, mapHeader.value);
    var file := View(0, |data|);
    var contents := Part(|data|, file, header.value[0].n, header.value[2].n);
    var mapView := Part(|data|, file, header.value[1].n, header.value[3].n);
    if !contents.Ok? || !mapView.Ok? then OutOfRange else
    var types := Rest(|data|, mapView.value, mapHeader.value[4].n);
    var names := Rest(|data|, mapView.value, mapHeader.value[5].n);
    if !types.Ok? || !names.Ok? then OutOfRange else
    var count := Parse(U16, data, types.value.base);
    if !count.Ok? then Failed(count) else
    LoadedGroups(data, types.value.base, names.value.base, contents.value.base, count.value.n + 1)
  }

  // ---- Loading what was laid out ----------------------------------------------------------------

  lemma {:induction false} DataAt(rs: seq<Resource>, k: nat, data: seq<Byte>, offset: nat)
    requires AllFit(rs) && k < |rs| && HoldsAt(data, offset, DataArea(rs))
    ensures HoldsAt(data, offset + DataLength(rs[..k]), DataItem(rs[k]))
    decreases |rs|
  {
    var n := |rs| - 1;
    HoldsAtSplit(data, offset, DataArea(rs[..n]), DataItem(rs[n]));
    if k < n {
      assert rs[..n][..k] == rs[..k];
      DataAt(rs[..n], k, data, offset);
    }
  }

  lemma NameStep(rs: seq<Resource>)
    requires AllFit(rs) && rs != []
    ensures AllFit(rs[..|rs| - 1]) && |rs[|rs| - 1].name| < 255
    ensures NameArea(rs) == NameArea(rs[..|rs| - 1]) + NameItem(rs[|rs| - 1])
  {
  }

  lemma {:induction false} NameAt(rs: seq<Resource>, k: nat, data: seq<Byte>, offset: nat)
    requires AllFit(rs) && k < |rs| && HoldsAt(data, offset, NameArea(rs))
    ensures HoldsAt(data, offset + NameLength(rs[..k]), NameItem(rs[k]))
    decreases |rs|
  {
    hide *;
    var n := |rs| - 1;
    NameStep(rs);
    HoldsAtSplit(data, offset, NameArea(rs[..n]), NameItem(rs[n]));
    if k < n {
      assert rs[..n][..k] == rs[..k];
      NameAt(rs[..n], k, data, offset);
    }
  }

  /** Where row `k` of a table is. */
  lemma {:induction false} RowHolds(members: seq<Member>, rows: seq<seq<Value>>, k: nat, data: seq<Byte>, offset: nat)
    requires AllValid(members, rows) && NoStringsAll(members) && k < |rows|
    requires HoldsAt(data, offset, Table(members, rows))
    ensures ValidAll(members, rows[k])
    ensures HoldsAt(data, offset + CheckedSizes(members) * k, SerializeAll(members, rows[k]))
    decreases |rows|
  {
    hide *;
    var n := |rows| - 1;
    TableStep(members, rows);
    HoldsAtSplit(data, offset, Table(members, rows[..n]), SerializeAll(members, rows[n]));
    if k < n {
      RowHolds(members, rows[..n], k, data, offset);
    } else {
      TableLength(members, rows[..n]);
    }
  }

  lemma RowAt(members: seq<Member>, rows: seq<seq<Value>>, k: nat, data: seq<Byte>, offset: nat)
    requires AllValid(members, rows) && NoStringsAll(members) && k < |rows|
    requires HoldsAt(data, offset, Table(members, rows))
    ensures ParseAll(members, data, offset + CheckedSizes(members) * k) == Ok(rows[k])
  {
    hide *;
    RowHolds(members, rows, k, data, offset);
    ParseAllInverts(members, rows[k], data, offset + CheckedSizes(members) * k);
  }

  lemma DataBack(rs: seq<Resource>, k: nat, data: seq<Byte>, contents: nat)
    requires AllFit(rs) && k < |rs| && HoldsAt(data, contents, DataArea(rs))
    ensures var start := contents + DataLength(rs[..k]);
            Parse(U32, data, start) == Ok(Num(|rs[k].data|)) && HoldsAt(data, start + 4, rs[k].data)
  {
    var r := rs[k];
    var start := contents + DataLength(rs[..k]);
    DataAt(rs, k, data, contents);
    HoldsAtSplit(data, start, BigEndian(|r.data|, 4), r.data);
    Powers();
    UnsignedValid(4, |r.data|);
    hide AllFit, DataArea, Pow256, BigEndian, HoldsAt;
    ParseInverts(U32, Num(|r.data|), data, start);
  }

  lemma NameBack(rs: seq<Resource>, k: nat, data: seq<Byte>, names: nat)
    requires AllFit(rs) && k < |rs| && HoldsAt(data, names, NameArea(rs)) && rs[k].name != []
    requires NameLength(rs) <= 0xFFFF
    ensures Parse(Str, data, names + NameLength(rs[..k])) == Ok(Bytes(rs[k].name)) && NameLength(rs[..k]) < 0xFFFF
  {
    hide *;
    NamesFit(rs);
    NameAt(rs, k, data, names);
    LengthPrefix(rs, k + 1);
    LengthStep(rs, k);
    NameReads(rs[k], data, names + NameLength(rs[..k]));
  }

  lemma NamesFit(rs: seq<Resource>)
    requires AllFit(rs)
    ensures forall k :: 0 <= k < |rs| ==> |rs[k].name| < 255 && |rs[k].data| < 0x1_0000_0000
  {
  }

  lemma NameReads(r: Resource, data: seq<Byte>, offset: nat)
    requires r.name != [] && |r.name| < 255 && HoldsAt(data, offset, NameItem(r))
    ensures Parse(Str, data, offset) == Ok(Bytes(r.name))
  {
    StringInverts(Bytes(r.name), data, offset);
  }

  lemma ResourceBack(rs: seq<Resource>, k: nat, data: seq<Byte>, names: nat, contents: nat)
    requires AllFit(rs) && k < |rs| && NameLength(rs) <= 0xFFFF && ValidAll(ENTRY, EntryOf(rs, k))
    requires HoldsAt(data, contents, DataArea(rs)) && HoldsAt(data, names, NameArea(rs))
    ensures LoadedResource(data, names, contents, EntryOf(rs, k)) == Ok(rs[k])
  {
    hide Parse, NameLength, DataLength, NameArea, DataArea, ValidAll, ShapeAll, AllFit;
    DataBack(rs, k, data, contents);
    if rs[k].name != [] {
      NameBack(rs, k, data, names);
    }
  }

  lemma EntryBack(groups: seq<Group>, k: nat, data: seq<Byte>)
    requires WithinLimits(groups) && Laid(data, groups) && k < |Flatten(groups)|
    ensures var entry := ParseAll(ENTRY, data, EntriesAt(groups) + ENTRY_SIZE * k);
            && entry.Ok?
            && LoadedResource(data, NamesAt(groups), DATA_OFFSET, entry.value) == Ok(Flatten(groups)[k])
  {
    hide *;
    var rs := Flatten(groups);
    LaidParts(groups, data);
    StructSizes();
    RowAt(ENTRY, Entries(rs), k, data, EntriesAt(groups));
    ResourceBack(rs, k, data, NamesAt(groups), DATA_OFFSET);
  }

  /** The first `n` resources of group `g` come back. */
  lemma {:induction false} ResourcesBack(groups: seq<Group>, g: nat, n: nat, data: seq<Byte>)
    requires WithinLimits(groups) && Laid(data, groups) && g < |groups| && n <= |groups[g].resources|
    ensures LoadedResources(data, NamesAt(groups), DATA_OFFSET,
                            EntriesAt(groups) + ENTRY_SIZE * |Flatten(groups[..g])|, n)
            == Ok(groups[g].resources[..n])
    decreases n
  {
    hide Flatten, WithinLimits, Laid, EntriesAt, NamesAt, LoadedResource, ENTRY;
    if n > 0 {
      ResourcesBack(groups, g, n - 1, data);
      var rs, before := Flatten(groups), Flatten(groups[..g]);
      FlattenPrefix(groups, g);
      var k := |before| + n - 1;
      assert rs[k] == (before + groups[g].resources)[k] == groups[g].resources[n - 1] by {
        assert rs[..|before + groups[g].resources|][k] == rs[k];
      }
      EntryBack(groups, k, data);
      assert groups[g].resources[..n] == groups[g].resources[..n - 1] + [groups[g].resources[n - 1]];
    }
  }

  lemma {:induction false} GroupsBack(groups: seq<Group>, n: nat, data: seq<Byte>)
    requires WithinLimits(groups) && Laid(data, groups) && n <= |groups|
    ensures LoadedGroups(data, TypesAt(groups), NamesAt(groups), DATA_OFFSET, n) == Ok(groups[..n])
    decreases n
  {
    hide *;
    if n > 0 {
      GroupsBack(groups, n - 1, data);
      TypeItemBack(groups, n - 1, data);
      ResourcesBack(groups, n - 1, |groups[n - 1].resources|, data);
      GroupBack(groups, n - 1, data);
      GroupsStep(data, TypesAt(groups), NamesAt(groups), groups[..n - 1], TypeItemOf(groups, n - 1), groups[n - 1]);
      assert groups[..n] == groups[..n - 1] + [groups[n - 1]];
    } else {
      NoGroups(data, TypesAt(groups), NamesAt(groups));
    }
  }

  lemma NoGroups(data: seq<Byte>, types: nat, names: nat)
    ensures LoadedGroups(data, types, names, DATA_OFFSET, 0) == Ok([])
  {
  }

  lemma GroupsStep(data: seq<Byte>, types: nat, names: nat, before: seq<Group>, item: seq<Value>, g: Group)
    requires LoadedGroups(data, types, names, DATA_OFFSET, |before|) == Ok(before)
    requires ParseAll(TYPE_ITEM, data, types + 2 + TYPE_ITEM_SIZE * |before|) == Ok(item)
    requires ShapeAll(TYPE_ITEM, item) && LoadedGroup(data, types, names, DATA_OFFSET, item) == Ok(g)
    ensures LoadedGroups(data, types, names, DATA_OFFSET, |before| + 1) == Ok(before + [g])
  {
    hide LoadedGroup, ParseAll, ShapeAll, TYPE_ITEM;
  }

  lemma GroupBack(groups: seq<Group>, g: nat, data: seq<Byte>)
    requires g < |groups| && |groups[g].resources| > 0 && ShapeAll(TYPE_ITEM, TypeItemOf(groups, g))
    requires LoadedResources(data, NamesAt(groups), DATA_OFFSET,
                             EntriesAt(groups) + ENTRY_SIZE * |Flatten(groups[..g])|,
                             |groups[g].resources|) == Ok(groups[g].resources[..|groups[g].resources|])
    ensures LoadedGroup(data, TypesAt(groups), NamesAt(groups), DATA_OFFSET, TypeItemOf(groups, g)) == Ok(groups[g])
  {
    hide Flatten, LoadedResources, TYPE_ITEM, ShapeAll;
    assert groups[g].resources[..|groups[g].resources|] == groups[g].resources;
  }

  lemma TypeItemBack(groups: seq<Group>, g: nat, data: seq<Byte>)
    requires WithinLimits(groups) && Laid(data, groups) && g < |groups|
    ensures ParseAll(TYPE_ITEM, data, TypesAt(groups) + 2 + TYPE_ITEM_SIZE * g) == Ok(TypeItemOf(groups, g))
    ensures |groups[g].resources| > 0
  {
    hide *;
    LaidParts(groups, data);
    StructSizes();
    RowAt(TYPE_ITEM, TypeItems(groups), g, data, TypesAt(groups) + 2);
  }

  /** A fork laid out for the groups loads as the same groups: types, ids, attributes, names and data, in order. */
  lemma RoundTrip(groups: seq<Group>, data: seq<Byte>)
    requires WithinLimits(groups) && Laid(data, groups)
    ensures LoadedFork(data) == Ok(groups)
  {
    hide *;
    LaidParts(groups, data);
    ParseAllInverts(HEADER, HeaderValues(groups), data, 0);
    ParseAllInverts(MAP_HEADER, MapHeaderValues(groups), data, MapAt(groups));
    GroupsBack(groups, |groups|, data);
    assert groups[..|groups|] == groups;
    ForkOpens(groups, data);
  }

  /** The header and the map header lead to the lists. */
  lemma ForkOpens(groups: seq<Group>, data: seq<Byte>)
    requires ParseAll(HEADER, data, 0) == Ok(HeaderValues(groups))
    requires ParseAll(MAP_HEADER, data, MapAt(groups)) == Ok(MapHeaderValues(groups))
    requires |data| == MapAt(groups) + MapLength(groups)
    requires Parse(U16, data, TypesAt(groups)) == Ok(Num(|groups| - 1)) && groups != []
    ensures LoadedFork(data) == LoadedGroups(data, TypesAt(groups), NamesAt(groups), DATA_OFFSET, |groups|)
  {
    hide *;
    Positions(groups);
    ListsAt(data, DataLength(Flatten(groups)), EntriesEnd(groups), MapLength(groups), HeaderValues(groups),
            |groups| - 1);
  }

  lemma Positions(groups: seq<Group>)
    ensures var data, entries := DataLength(Flatten(groups)), EntriesEnd(groups);
            && HeaderValues(groups) == [Num(DATA_OFFSET), Num(DATA_OFFSET + data), Num(data), Num(MapLength(groups))]
            && MapHeaderValues(groups) == [Fields(HeaderValues(groups)), Num(0), Num(0), Num(0), Num(MAP_HEADER_SIZE),
                                           Num(MAP_HEADER_SIZE + entries)]
            && MapAt(groups) == DATA_OFFSET + data
            && TypesAt(groups) == DATA_OFFSET + data + MAP_HEADER_SIZE
            && NamesAt(groups) == DATA_OFFSET + data + MAP_HEADER_SIZE + entries
            && MapLength(groups) >= MAP_HEADER_SIZE + entries
  {
    hide Flatten, DataLength, NameLength, EntriesEnd;
  }

  lemma ListsAt(data: seq<Byte>, dataLength: nat, entriesEnd: nat, mapLength: nat, header: seq<Value>, count: nat)
    requires header == [Num(DATA_OFFSET), Num(DATA_OFFSET + dataLength), Num(dataLength), Num(mapLength)]
    requires ParseAll(HEADER, data, 0) == Ok(header)
    requires ParseAll(MAP_HEADER, data, DATA_OFFSET + dataLength)
             == Ok([Fields(header), Num(0), Num(0), Num(0), Num(MAP_HEADER_SIZE), Num(MAP_HEADER_SIZE + entriesEnd)])
    requires |data| == DATA_OFFSET + dataLength + mapLength && MAP_HEADER_SIZE + entriesEnd <= mapLength
    requires Parse(U16, data, DATA_OFFSET + dataLength + MAP_HEADER_SIZE) == Ok(Num(count))
    ensures LoadedFork(data) == LoadedGroups(data, DATA_OFFSET + dataLength + MAP_HEADER_SIZE,
                                             DATA_OFFSET + dataLength + MAP_HEADER_SIZE + entriesEnd,
                                             DATA_OFFSET, count + 1)
  {
    hide HEADER, MAP_HEADER, ParseAll, Parse, LoadedGroups;
  }

  /** What `Laid` says, part by part. */
  lemma LaidParts(groups: seq<Group>, data: seq<Byte>)
    requires WithinLimits(groups) && Laid(data, groups)
    ensures groups != [] && |data| == MapAt(groups) + MapLength(groups)
    ensures ValidAll(HEADER, HeaderValues(groups)) && HoldsAt(data, 0, SerializeAll(HEADER, HeaderValues(groups)))
    ensures ValidAll(MAP_HEADER, MapHeaderValues(groups))
    ensures HoldsAt(data, MapAt(groups), SerializeAll(MAP_HEADER, MapHeaderValues(groups)))
    ensures Parse(U16, data, TypesAt(groups)) == Ok(Num(|groups| - 1))
    ensures AllValid(TYPE_ITEM, TypeItems(groups))
    ensures HoldsAt(data, TypesAt(groups) + 2, Table(TYPE_ITEM, TypeItems(groups)))
    ensures forall g :: 0 <= g < |groups| ==> groups[g].resources != []
    ensures AllFit(Flatten(groups)) && HoldsAt(data, DATA_OFFSET, DataArea(Flatten(groups)))
    ensures HoldsAt(data, NamesAt(groups), NameArea(Flatten(groups))) && NameLength(Flatten(groups)) <= 0xFFFF
    ensures AllValid(ENTRY, Entries(Flatten(groups)))
    ensures HoldsAt(data, EntriesAt(groups), Table(ENTRY, Entries(Flatten(groups))))
    ensures forall k :: 0 <= k < |Flatten(groups)| ==> ValidAll(ENTRY, EntryOf(Flatten(groups), k))
  {
    RecordsValid(groups);
    CountReads(|groups| - 1, data, TypesAt(groups));
    hide Flatten, DataLength, NameLength, HoldsAt, Table, DataArea, NameArea, HEADER, MAP_HEADER, TYPE_ITEM, ENTRY,
         SerializeAll, ParseAll, Parse, BigEndian, ValidAll, EntryOf;
    forall k | 0 <= k < |Flatten(groups)| ensures ValidAll(ENTRY, EntryOf(Flatten(groups), k)) {
      assert ValidAll(ENTRY, Entries(Flatten(groups))[k]);
    }
  }

  lemma CountReads(n: nat, data: seq<Byte>, offset: nat)
    ensures n < 0x1_0000 && HoldsAt(data, offset, BigEndian(n, 2)) ==> Parse(U16, data, offset) == Ok(Num(n))
  {
    Powers();
    if n < 0x1_0000 && HoldsAt(data, offset, BigEndian(n, 2)) {
      UnsignedValid(2, n);
      ParseInverts(U16, Num(n), data, offset);
    }
  }

  // ---- The file, byte by byte -------------------------------------------------------------------

  /** Where a number of a record is: after the members before it. */
  lemma NumberIn(members: seq<Member>, values: seq<Value>, j: nat, data: seq<Byte>, at: nat, w: nat)
    requires ValidAll(members, values) && NoStringsAll(members) && j < |members| == |values|
    requires members[j].ty == Integer(w, false) || (members[j].ty == U24 && w == 3)
    requires HoldsAt(data, at, SerializeAll(members, values))
    ensures values[j].Num? && values[j].n >= 0
    ensures NumberAt(data, at + CheckedSizes(members[..j]), values[j].n, w)
  {
    hide *;
    MembersValid(members, values);
    MemberBytes(members, values, j);
    NoStringsPrefix(members, j);
    RowLength(members[..j], values[..j]);
    var place := |SerializeAll(members[..j], values[..j])|;
    HoldsWithin(data, at, SerializeAll(members, values), place, Serialize(members[j].ty, values[j]));
    ScalarNumber(members[j].ty, values[j], data, at + place, w);
  }

  lemma NoStringsPrefix(members: seq<Member>, j: nat)
    requires NoStringsAll(members) && j <= |members|
    ensures NoStringsAll(members[..j])
  {
  }

  lemma HoldsWithin(data: seq<Byte>, at: nat, bytes: seq<Byte>, place: nat, part: seq<Byte>)
    requires HoldsAt(data, at, bytes) && HoldsAt(bytes, place, part)
    ensures HoldsAt(data, at + place, part)
  {
    var rest := bytes[place + |part|..];
    assert bytes == bytes[..place] + (part + rest);
    HoldsAtSplit(data, at, bytes[..place], part + rest);
    HoldsAtSplit(data, at + place, part, rest);
  }

  lemma ScalarNumber(ty: Type, v: Value, data: seq<Byte>, at: nat, w: nat)
    requires Valid(ty, v) && (ty == Integer(w, false) || (ty == U24 && w == 3))
    requires HoldsAt(data, at, Serialize(ty, v))
    ensures v.Num? && v.n >= 0 && NumberAt(data, at, v.n, w)
  {
    hide BigEndian, Pow256, NumberAt, HoldsAt;
    HoldsNumber(data, at, v.n, w);
  }

  /** The sizes of the members before each, one step at a time. */
  lemma SizeSteps(members: seq<Member>)
    ensures CheckedSizes(members[..0]) == 0
    ensures forall j :: 0 <= j < |members| ==>
              CheckedSizes(members[..j + 1]) == CheckedSizes(members[..j]) + CheckedSize(members[j].ty)
  {
    forall j | 0 <= j < |members|
      ensures CheckedSizes(members[..j + 1]) == CheckedSizes(members[..j]) + CheckedSize(members[j].ty)
    {
      assert members[..j + 1][..j] == members[..j];
    }
  }

  lemma MemberPlaces()
    ensures CheckedSizes(HEADER[..0]) == 0 && CheckedSizes(HEADER[..1]) == 4 && CheckedSizes(HEADER[..2]) == 8
            && CheckedSizes(HEADER[..3]) == 12
    ensures CheckedSizes(TYPE_ITEM[..0]) == 0 && CheckedSizes(TYPE_ITEM[..1]) == 4 && CheckedSizes(TYPE_ITEM[..2]) == 6
    ensures CheckedSizes(ENTRY[..0]) == 0 && CheckedSizes(ENTRY[..1]) == 2 && CheckedSizes(ENTRY[..2]) == 4
            && CheckedSizes(ENTRY[..3]) == 5 && CheckedSizes(ENTRY[..4]) == 8
  {
    SizeSteps(HEADER);
    SizeSteps(TYPE_ITEM);
    SizeSteps(ENTRY);
    hide CheckedSizes;
  }

  lemma MapPlaces()
    ensures CheckedSizes(MAP_HEADER[..1]) == 16 && CheckedSizes(MAP_HEADER[..2]) == 20
            && CheckedSizes(MAP_HEADER[..3]) == 22 && CheckedSizes(MAP_HEADER[..4]) == 24
            && CheckedSizes(MAP_HEADER[..5]) == 26
  {
    SizeSteps(MAP_HEADER);
    StructSizes();
    assert CheckedSize(Struct(HEADER)) == 16;
    hide CheckedSizes, HEADER;
  }

  /** The members of each record. */
  lemma RecordTypes()
    ensures |HEADER| == 4 && forall j :: 0 <= j < 4 ==> HEADER[j].ty == Integer(4, false)
    ensures |TYPE_ITEM| == 3 && TYPE_ITEM[0].ty == Integer(4, false)
            && TYPE_ITEM[1].ty == TYPE_ITEM[2].ty == Integer(2, false)
    ensures |ENTRY| == 5 && ENTRY[0].ty == ENTRY[1].ty == Integer(2, false) && ENTRY[2].ty == Integer(1, false)
            && ENTRY[3].ty == U24 && ENTRY[4].ty == Integer(4, false)
    ensures |MAP_HEADER| == 6 && MAP_HEADER[0].ty == Struct(HEADER) && MAP_HEADER[1].ty == Integer(4, false)
            && forall j :: 2 <= j < 6 ==> MAP_HEADER[j].ty == Integer(2, false)
  {
  }

  /** Four numbers of four bytes. */
  lemma HeaderFields(a: nat, b: nat, c: nat, d: nat, data: seq<Byte>, at: nat)
    requires var values := [Num(a), Num(b), Num(c), Num(d)];
             ValidAll(HEADER, values) && HoldsAt(data, at, SerializeAll(HEADER, values))
    ensures NumberAt(data, at, a, 4) && NumberAt(data, at + 4, b, 4)
            && NumberAt(data, at + 8, c, 4) && NumberAt(data, at + 12, d, 4)
  {
    hide *;
    var values := [Num(a), Num(b), Num(c), Num(d)];
    StructSizes();
    MemberPlaces();
    RecordTypes();
    NumberIn(HEADER, values, 0, data, at, 4);
    NumberIn(HEADER, values, 1, data, at, 4);
    NumberIn(HEADER, values, 2, data, at, 4);
    NumberIn(HEADER, values, 3, data, at, 4);
  }

  lemma EntryFields(id: nat, name: nat, attributes: nat, offset: nat, data: seq<Byte>, at: nat)
    requires var values := [Num(id), Num(name), Num(attributes), Num(offset), Num(0)];
             ValidAll(ENTRY, values) && HoldsAt(data, at, SerializeAll(ENTRY, values))
    ensures NumberAt(data, at, id, 2) && NumberAt(data, at + 2, name, 2) && NumberAt(data, at + 4, attributes, 1)
            && NumberAt(data, at + 5, offset, 3) && NumberAt(data, at + 8, 0, 4)
  {
    hide *;
    var values := [Num(id), Num(name), Num(attributes), Num(offset), Num(0)];
    StructSizes();
    MemberPlaces();
    RecordTypes();
    NumberIn(ENTRY, values, 0, data, at, 2);
    NumberIn(ENTRY, values, 1, data, at, 2);
    NumberIn(ENTRY, values, 2, data, at, 1);
    NumberIn(ENTRY, values, 3, data, at, 3);
    NumberIn(ENTRY, values, 4, data, at, 4);
  }

  lemma TypeItemFields(typeId: nat, count: nat, offset: nat, data: seq<Byte>, at: nat)
    requires var values := [Num(typeId), Num(count), Num(offset)];
             ValidAll(TYPE_ITEM, values) && HoldsAt(data, at, SerializeAll(TYPE_ITEM, values))
    ensures NumberAt(data, at, typeId, 4) && NumberAt(data, at + 4, count, 2) && NumberAt(data, at + 6, offset, 2)
  {
    hide *;
    var values := [Num(typeId), Num(count), Num(offset)];
    StructSizes();
    MemberPlaces();
    RecordTypes();
    NumberIn(TYPE_ITEM, values, 0, data, at, 4);
    NumberIn(TYPE_ITEM, values, 1, data, at, 2);
    NumberIn(TYPE_ITEM, values, 2, data, at, 2);
  }

  lemma MapHeaderFields(header: seq<Value>, types: nat, names: nat, data: seq<Byte>, at: nat)
    requires var values := [Fields(header), Num(0), Num(0), Num(0), Num(types), Num(names)];
             ValidAll(MAP_HEADER, values) && HoldsAt(data, at, SerializeAll(MAP_HEADER, values))
    ensures ValidAll(HEADER, header) && HoldsAt(data, at, SerializeAll(HEADER, header))
    ensures NumberAt(data, at + 16, 0, 4) && NumberAt(data, at + 20, 0, 2) && NumberAt(data, at + 22, 0, 2)
            && NumberAt(data, at + 24, types, 2) && NumberAt(data, at + 26, names, 2)
  {
    hide *;
    var values := [Fields(header), Num(0), Num(0), Num(0), Num(types), Num(names)];
    StructSizes();
    MapPlaces();
    RecordTypes();
    MembersValid(MAP_HEADER, values);
    MemberBytes(MAP_HEADER, values, 0);
    CopyIs(header);
    HoldsWithin(data, at, SerializeAll(MAP_HEADER, values), 0, SerializeAll(HEADER, header));
    NumberIn(MAP_HEADER, values, 1, data, at, 4);
    NumberIn(MAP_HEADER, values, 2, data, at, 2);
    NumberIn(MAP_HEADER, values, 3, data, at, 2);
    NumberIn(MAP_HEADER, values, 4, data, at, 2);
    NumberIn(MAP_HEADER, values, 5, data, at, 2);
  }

  lemma CopyIs(header: seq<Value>)
    requires Valid(Struct(HEADER), Fields(header))
    ensures ValidAll(HEADER, header) && Serialize(Struct(HEADER), Fields(header)) == SerializeAll(HEADER, header)
  {
    hide HEADER;
  }

  /** Where things are, in numbers: data from 0x100, then a map of 28 bytes, the types with their count before them,
      eight bytes each, the entries, twelve bytes each, and the names. */
  lemma PlacesAre(groups: seq<Group>)
    ensures var rs := Flatten(groups);
            var mapAt := 0x100 + DataLength(rs);
            && MapAt(groups) == mapAt && TypesAt(groups) == mapAt + 28 && EntriesAt(groups) == mapAt + 30 + 8 * |groups|
            && NamesAt(groups) == mapAt + 30 + 8 * |groups| + 12 * |rs|
            && MapLength(groups) == 30 + 8 * |groups| + 12 * |rs| + NameLength(rs)
  {
    hide Flatten, DataLength, NameLength;
  }

  /** The headers of the file and of its map. */
  lemma HeaderBytes(groups: seq<Group>, data: seq<Byte>)
    requires WithinLimits(groups) && Laid(data, groups)
    ensures var rs := Flatten(groups);
            var length := DataLength(rs);
            var mapAt := 0x100 + length;
            var mapLength := 30 + 8 * |groups| + 12 * |rs| + NameLength(rs);
            && |data| == mapAt + mapLength
            && NumberAt(data, 0, 0x100, 4) && NumberAt(data, 4, mapAt, 4)
            && NumberAt(data, 8, length, 4) && NumberAt(data, 12, mapLength, 4)
            && NumberAt(data, mapAt, 0x100, 4) && NumberAt(data, mapAt + 4, mapAt, 4)
            && NumberAt(data, mapAt + 8, length, 4) && NumberAt(data, mapAt + 12, mapLength, 4)
            && NumberAt(data, mapAt + 16, 0, 4) && NumberAt(data, mapAt + 20, 0, 2) && NumberAt(data, mapAt + 22, 0, 2)
            && NumberAt(data, mapAt + 24, 28, 2) && NumberAt(data, mapAt + 26, 30 + 8 * |groups| + 12 * |rs|, 2)
  {
    hide *;
    LaidParts(groups, data);
    PlacesAre(groups);
    HeaderNumbers(groups);
    var length, mapLength := DataLength(Flatten(groups)), MapLength(groups);
    HeaderFields(0x100, 0x100 + length, length, mapLength, data, 0);
    MapHeaderFields(HeaderValues(groups), 28, 30 + 8 * |groups| + 12 * |Flatten(groups)|, data, MapAt(groups));
    HeaderFields(0x100, 0x100 + length, length, mapLength, data, MapAt(groups));
  }

  lemma HeaderNumbers(groups: seq<Group>)
    ensures var length := DataLength(Flatten(groups));
            HeaderValues(groups) == [Num(0x100), Num(0x100 + length), Num(length), Num(MapLength(groups))]
    ensures MapHeaderValues(groups) == [Fields(HeaderValues(groups)), Num(0), Num(0), Num(0), Num(28),
                                        Num(30 + 8 * |groups| + 12 * |Flatten(groups)|)]
  {
    hide Flatten, DataLength, MapLength;
  }

  /** The count of types, and the item of type `g`. */
  lemma TypeItemBytes(groups: seq<Group>, g: nat, data: seq<Byte>)
    requires WithinLimits(groups) && Laid(data, groups) && g < |groups|
    ensures var types := 0x100 + DataLength(Flatten(groups)) + 28;
            var at := types + 2 + 8 * g;
            && NumberAt(data, types, |groups| - 1, 2)
            && NumberAt(data, at, groups[g].typeId, 4) && NumberAt(data, at + 4, |groups[g].resources| - 1, 2)
            && NumberAt(data, at + 6, 2 + 8 * |groups| + 12 * |Flatten(groups[..g])|, 2)
  {
    hide *;
    LaidParts(groups, data);
    CountHeld(groups, data);
    PlacesAre(groups);
    StructSizes();
    RowHolds(TYPE_ITEM, TypeItems(groups), g, data, TypesAt(groups) + 2);
    TypeItemNumbers(groups, g);
    TypeItemFields(groups[g].typeId, |groups[g].resources| - 1, 2 + 8 * |groups| + 12 * |Flatten(groups[..g])|, data,
                   TypesAt(groups) + 2 + 8 * g);
    HoldsNumber(data, TypesAt(groups), |groups| - 1, 2);
  }

  lemma CountHeld(groups: seq<Group>, data: seq<Byte>)
    requires WithinLimits(groups) && Laid(data, groups)
    ensures groups != [] && HoldsAt(data, TypesAt(groups), BigEndian(|groups| - 1, 2)) && TYPE_ITEM_SIZE == 8
  {
    hide HoldsAt, BigEndian, Flatten, DataLength, NameLength, Table, SerializeAll;
  }

  lemma TypeItemNumbers(groups: seq<Group>, g: nat)
    requires g < |groups|
    ensures TypeItemOf(groups, g) == [Num(groups[g].typeId), Num(|groups[g].resources| - 1),
                                      Num(2 + 8 * |groups| + 12 * |Flatten(groups[..g])|)]
  {
    hide Flatten;
  }

  /** The twelve bytes of entry `k`: id, name offset, attributes, data offset and four zeros. */
  lemma EntryBytes(groups: seq<Group>, k: nat, data: seq<Byte>)
    requires WithinLimits(groups) && Laid(data, groups) && k < |Flatten(groups)|
    ensures var rs := Flatten(groups);
            var at := 0x100 + DataLength(rs) + 30 + 8 * |groups| + 12 * k;
            && NumberAt(data, at, rs[k].id, 2)
            && NumberAt(data, at + 2, if rs[k].name == [] then 0xFFFF else NameLength(rs[..k]), 2)
            && NumberAt(data, at + 4, rs[k].attributes, 1)
            && NumberAt(data, at + 5, DataLength(rs[..k]), 3)
            && NumberAt(data, at + 8, 0, 4)
  {
    hide *;
    var rs := Flatten(groups);
    LaidParts(groups, data);
    PlacesAre(groups);
    StructSizes();
    EntrySizeIs();
    RowHolds(ENTRY, Entries(rs), k, data, EntriesAt(groups));
    EntryNumbers(rs, k);
    EntryFields(rs[k].id, if rs[k].name == [] then 0xFFFF else NameLength(rs[..k]), rs[k].attributes,
                DataLength(rs[..k]), data, EntriesAt(groups) + 12 * k);
  }

  lemma EntrySizeIs()
    ensures ENTRY_SIZE == 12
  {
  }

  lemma EntryNumbers(rs: seq<Resource>, k: nat)
    requires k < |rs|
    ensures EntryOf(rs, k) == [Num(rs[k].id), Num(if rs[k].name == [] then 0xFFFF else NameLength(rs[..k])),
                               Num(rs[k].attributes), Num(DataLength(rs[..k])), Num(0)]
  {
  }

  /** The data of resource `k` after its length in four bytes, and its name, if it has one, after its length in one. */
  lemma ContentBytes(groups: seq<Group>, k: nat, data: seq<Byte>)
    requires WithinLimits(groups) && Laid(data, groups) && k < |Flatten(groups)|
    ensures var rs := Flatten(groups);
            var at := 0x100 + DataLength(rs[..k]);
            var name := 0x100 + DataLength(rs) + 30 + 8 * |groups| + 12 * |rs| + NameLength(rs[..k]);
            && NumberAt(data, at, |rs[k].data|, 4) && HoldsAt(data, at + 4, rs[k].data)
            && (rs[k].name != [] ==> name < |data| && data[name] == |rs[k].name| && HoldsAt(data, name + 1, rs[k].name))
  {
    hide *;
    var rs := Flatten(groups);
    LaidParts(groups, data);
    PlacesAre(groups);
    DataOffsetIs();
    DataAt(rs, k, data, 0x100);
    NameAt(rs, k, data, NamesAt(groups));
    NamesFit(rs);
    ItemBytes(rs, k, data, 0x100 + DataLength(rs[..k]), NamesAt(groups) + NameLength(rs[..k]));
  }

  lemma DataOffsetIs()
    ensures DATA_OFFSET == 0x100
  {
  }

  lemma ItemBytes(rs: seq<Resource>, k: nat, data: seq<Byte>, at: nat, name: nat)
    requires AllFit(rs) && k < |rs| && |rs[k].name| < 255
    requires |rs[k].data| < 0x1_0000_0000 && HoldsAt(data, at, DataItem(rs[k])) && HoldsAt(data, name, NameItem(rs[k]))
    ensures NumberAt(data, at, |rs[k].data|, 4) && HoldsAt(data, at + 4, rs[k].data)
    ensures rs[k].name != [] ==> name < |data| && data[name] == |rs[k].name| && HoldsAt(data, name + 1, rs[k].name)
  {
    hide BigEndian, NumberAt, AllFit;
    HoldsAtSplit(data, at, BigEndian(|rs[k].data|, 4), rs[k].data);
    HoldsNumber(data, at, |rs[k].data|, 4);
    if rs[k].name != [] {
      HoldsAtSplit(data, name, [|rs[k].name|], rs[k].name);
      assert data[name] == data[name..name + 1][0];
    }
  }

  // ---- Loading, in steps ------------------------------------------------------------------------

  method LoadResource(region: MemoryRegion, names: nat, contents: nat, entry: seq<Value>, junk: Byte)
    returns (r: Result<Resource>)
    requires ShapeAll(ENTRY, entry)
    ensures r == LoadedResource(region.data[..], names, contents, entry)
  {
    NumbersIn(ENTRY, entry);
    var start := contents + entry[3].n;
    var size := ReadMember(U32, region, start, junk);
    if !size.Ok? {
      return Failed(size);
    }
    var view := Part(region.data.Length, View(contents, 0), entry[3].n + 4, size.value.n);
    if !view.Ok? {
      return OutOfRange;
    }
    var name := Bytes([]);
    if entry[1].n != NO_NAME {
      var read := ReadString(region, names + entry[1].n);
      if !read.Ok? {
        return Failed(read);
      }
      name := read.value;
    }
    var data := region.data[view.value.base..view.value.base + view.value.size];
    return Ok(Resource(entry[0].n, name.bytes, entry[2].n, data));
  }

  method LoadGroup(region: MemoryRegion, types: nat, names: nat, contents: nat, item: seq<Value>, junk: Byte)
    returns (r: Result<Group>)
    requires ShapeAll(TYPE_ITEM, item)
    ensures r == LoadedGroup(region.data[..], types, names, contents, item)
  {
    hide *;
    GroupFinds(region.data[..], types, names, contents, item);
    NoResources(region.data[..], names, contents, types + item[2].n);
    var resources: seq<Resource> := [];
    var relativeOffset := 0;
    var index := 0;
    while index <= item[1].n
      invariant |resources| == index <= item[1].n + 1 && relativeOffset == ENTRY_SIZE * index
      invariant LoadedResources(region.data[..], names, contents, types + item[2].n, index) == Ok(resources)
    {
      var entry := ReadStruct(ENTRY, region, types + item[2].n + relativeOffset, junk);
      if !entry.Ok? {
        EntryFails(region.data[..], names, contents, types + item[2].n, resources);
        ResourcesFail(region.data[..], names, contents, types + item[2].n, index + 1, item[1].n + 1);
        return Failed(entry);
      }
      var resource := LoadResource(region, names, contents, entry.value, junk);
      if !resource.Ok? {
        ResourceFails(region.data[..], names, contents, types + item[2].n, resources, entry.value);
        ResourcesFail(region.data[..], names, contents, types + item[2].n, index + 1, item[1].n + 1);
        return Failed(resource);
      }
      ResourceStep(region.data[..], names, contents, types + item[2].n, resources, entry.value, resource.value);
      relativeOffset := relativeOffset + ENTRY_SIZE;
      resources := resources + [resource.value];
      index := index + 1;
    }
    return Ok(Group(item[0].n, resources));
  }

  lemma GroupFinds(data: seq<Byte>, types: nat, names: nat, contents: nat, item: seq<Value>)
    requires ShapeAll(TYPE_ITEM, item)
    ensures |item| == 3 && forall k :: 0 <= k < 3 ==> item[k].Num? && item[k].n >= 0
    ensures LoadedGroup(data, types, names, contents, item)
            == var rs := LoadedResources(data, names, contents, types + item[2].n, item[1].n + 1);
               if rs.Ok? then Ok(Group(item[0].n, rs.value)) else Failed(rs)
  {
    NumbersIn(TYPE_ITEM, item);
    hide LoadedResources;
  }

  lemma NoResources(data: seq<Byte>, names: nat, contents: nat, start: nat)
    ensures LoadedResources(data, names, contents, start, 0) == Ok([])
  {
  }

  lemma ResourceStep(data: seq<Byte>, names: nat, contents: nat, start: nat, before: seq<Resource>, entry: seq<Value>,
                     r: Resource)
    requires LoadedResources(data, names, contents, start, |before|) == Ok(before)
    requires ParseAll(ENTRY, data, start + ENTRY_SIZE * |before|) == Ok(entry)
    requires ShapeAll(ENTRY, entry) && LoadedResource(data, names, contents, entry) == Ok(r)
    ensures LoadedResources(data, names, contents, start, |before| + 1) == Ok(before + [r])
  {
    hide LoadedResource, ParseAll, ShapeAll, ENTRY;
  }

  lemma EntryFails(data: seq<Byte>, names: nat, contents: nat, start: nat, before: seq<Resource>)
    requires LoadedResources(data, names, contents, start, |before|) == Ok(before)
    requires !ParseAll(ENTRY, data, start + ENTRY_SIZE * |before|).Ok?
    ensures LoadedResources(data, names, contents, start, |before| + 1)
            == Failed(ParseAll(ENTRY, data, start + ENTRY_SIZE * |before|))
  {
    hide LoadedResource, ParseAll, ShapeAll, ENTRY;
  }

  lemma ResourceFails(data: seq<Byte>, names: nat, contents: nat, start: nat, before: seq<Resource>, entry: seq<Value>)
    requires LoadedResources(data, names, contents, start, |before|) == Ok(before)
    requires ParseAll(ENTRY, data, start + ENTRY_SIZE * |before|) == Ok(entry)
    requires ShapeAll(ENTRY, entry) && !LoadedResource(data, names, contents, entry).Ok?
    ensures LoadedResources(data, names, contents, start, |before| + 1)
            == Failed(LoadedResource(data, names, contents, entry))
  {
    hide LoadedResource, ParseAll, ShapeAll, ENTRY;
  }

  lemma {:induction false} ResourcesFail(data: seq<Byte>, names: nat, contents: nat, start: nat, k: nat, n: nat)
    requires k <= n && !LoadedResources(data, names, contents, start, k).Ok?
    ensures LoadedResources(data, names, contents, start, n) == LoadedResources(data, names, contents, start, k)
    decreases n
  {
    if k < n {
      ResourcesFail(data, names, contents, start, k, n - 1);
    }
  }

  lemma {:induction false} GroupsFail(data: seq<Byte>, types: nat, names: nat, contents: nat, k: nat, n: nat)
    requires k <= n && !LoadedGroups(data, types, names, contents, k).Ok?
    ensures LoadedGroups(data, types, names, contents, n) == LoadedGroups(data, types, names, contents, k)
    decreases n
  {
    if k < n {
      GroupsFail(data, types, names, contents, k, n - 1);
    }
  }

  method LoadGroups(region: MemoryRegion, types: nat, names: nat, contents: nat, count: nat, junk: Byte)
    returns (r: Result<seq<Group>>)
    ensures r == LoadedGroups(region.data[..], types, names, contents, count + 1)
  {
    hide ParseAll, ENTRY, TYPE_ITEM, LoadedGroup;
    var groups: seq<Group> := [];
    var offset := 2;
    var i := 0;
    while i <= count
      invariant i <= count + 1 && offset == 2 + TYPE_ITEM_SIZE * i
      invariant LoadedGroups(region.data[..], types, names, contents, i) == Ok(groups)
    {
      var item := ReadStruct(TYPE_ITEM, region, types + offset, junk);
      if !item.Ok? {
        GroupsFail(region.data[..], types, names, contents, i + 1, count + 1);
        return Failed(item);
      }
      offset := offset + TYPE_ITEM_SIZE;
      var group := LoadGroup(region, types, names, contents, item.value, junk);
      if !group.Ok? {
        GroupsFail(region.data[..], types, names, contents, i + 1, count + 1);
        return Failed(group);
      }
      groups := groups + [group.value];
      i := i + 1;
    }
    return Ok(groups);
  }

  lemma CountShape(count: Value)
    requires Shape(U16, count)
    ensures count.Num? && count.n >= 0
  {
  }

  method LoadRsrcFork(region: MemoryRegion, junk: Byte) returns (r: Result<seq<Group>>)
    ensures r == LoadedFork(region.data[..])
  {
    hide ParseAll, Parse, LoadedGroups, Shape, ShapeAll;
    var header := ReadStruct(HEADER, region, 0, junk);
    if !header.Ok? {
      return Failed(header);
    }
    var h := header.value;
    NumbersIn(HEADER, h);
    var mapHeader := ReadStruct(MAP_HEADER, region, h[1].n, junk);
    if !mapHeader.Ok? {
      return Failed(mapHeader);
    }
    var m := mapHeader.value;
    NumbersIn(MAP_HEADER, m);
    var file := View(0, region.data.Length);
    var contents := Part(file.size, file, h[0].n, h[2].n);
    if !contents.Ok? {
      return OutOfRange;
    }
    var mapView := Part(file.size, file, h[1].n, h[3].n);
    if !mapView.Ok? {
      return OutOfRange;
    }
    var types := Rest(file.size, mapView.value, m[4].n);
    if !types.Ok? {
      return OutOfRange;
    }
    var names := Rest(file.size, mapView.value, m[5].n);
    if !names.Ok? {
      return OutOfRange;
    }
    var count := ReadMember(U16, region, types.value.base, junk);
    if !count.Ok? {
      return Failed(count);
    }
    CountShape(count.value);
    r := LoadGroups(region, types.value.base, names.value.base, contents.value.base, count.value.n, junk);
  }

  // ---- Saving -----------------------------------------------------------------------------------

  ghost function Names(rs: seq<Resource>): seq<seq<Byte>> {
    if rs == [] then [] else
      var n := |rs| - 1;
      Names(rs[..n]) + if rs[n].name == [] then [] else [rs[n].name]
  }

  ghost function Datas(rs: seq<Resource>): (s: seq<seq<Byte>>)
    ensures |s| == |rs| && forall k :: 0 <= k < |rs| ==> s[k] == rs[k].data
  {
    seq(|rs|, k requires 0 <= k < |rs| => rs[k].data)
  }

  /** What one more resource adds to the lists. */
  lemma OneResource(rs: seq<Resource>, r: Resource)
    ensures DataLength(rs + [r]) == DataLength(rs) + 4 + |r.data|
    ensures NameLength(rs + [r]) == NameLength(rs) + if r.name == [] then 0 else 1 + |r.name|
    ensures Names(rs + [r]) == Names(rs) + if r.name == [] then [] else [r.name]
    ensures Datas(rs + [r]) == Datas(rs) + [r.data]
    ensures Entries(rs + [r]) == Entries(rs) + [EntryOf(rs + [r], |rs|)]
    ensures EntryOf(rs + [r], |rs|) == [Num(r.id), Num(if r.name == [] then NO_NAME else NameLength(rs)),
                                        Num(r.attributes), Num(DataLength(rs)), Num(0)]
  {
    hide *;
    OneLonger(rs, r);
    DataAdded(rs, r);
    EntryAdded(rs, r);
  }

  lemma DataAdded(rs: seq<Resource>, r: Resource)
    ensures Datas(rs + [r]) == Datas(rs) + [r.data]
  {
    hide Datas;
    var before, after := Datas(rs), Datas(rs + [r]);
    forall k | 0 <= k < |after| ensures after[k] == (before + [r.data])[k] {}
  }

  lemma OneLonger(rs: seq<Resource>, r: Resource)
    ensures DataLength(rs + [r]) == DataLength(rs) + 4 + |r.data|
    ensures NameLength(rs + [r]) == NameLength(rs) + if r.name == [] then 0 else 1 + |r.name|
    ensures Names(rs + [r]) == Names(rs) + if r.name == [] then [] else [r.name]
  {
    assert (rs + [r])[..|rs|] == rs;
  }

  lemma EntryAdded(rs: seq<Resource>, r: Resource)
    ensures Entries(rs + [r]) == Entries(rs) + [EntryOf(rs + [r], |rs|)]
    ensures EntryOf(rs + [r], |rs|) == [Num(r.id), Num(if r.name == [] then NO_NAME else NameLength(rs)),
                                        Num(r.attributes), Num(DataLength(rs)), Num(0)]
  {
    hide *;
    var before, after := Entries(rs), Entries(rs + [r]);
    forall k | 0 <= k < |rs| ensures after[k] == before[k] {
      EntryKept(rs, r, k);
    }
    LastEntry(rs, r);
    OneLongerList(before, after);
  }

  lemma OneLongerList<T>(before: seq<T>, after: seq<T>)
    requires |after| == |before| + 1 && forall k :: 0 <= k < |before| ==> after[k] == before[k]
    ensures after == before + [after[|before|]]
  {
  }

  lemma EntryKept(rs: seq<Resource>, r: Resource, k: nat)
    requires k < |rs|
    ensures EntryOf(rs + [r], k) == EntryOf(rs, k)
  {
    hide DataLength, NameLength;
    assert (rs + [r])[..k] == rs[..k];
  }

  lemma LastEntry(rs: seq<Resource>, r: Resource)
    ensures EntryOf(rs + [r], |rs|) == [Num(r.id), Num(if r.name == [] then NO_NAME else NameLength(rs)),
                                        Num(r.attributes), Num(DataLength(rs)), Num(0)]
  {
    hide DataLength, NameLength;
    assert (rs + [r])[..|rs|] == rs;
  }

  datatype Lists = Lists(items: seq<seq<Value>>, entries: seq<seq<Value>>, datas: seq<seq<Byte>>, names: seq<seq<Byte>>,
                         entryOffset: nat, dataOffset: nat, nameOffset: nat)

  /** What is written for all the groups. */
  ghost function AllLists(groups: seq<Group>): Lists {
    var rs := Flatten(groups);
    Lists(TypeItems(groups), Entries(rs), Datas(rs), Names(rs), EntriesEnd(groups), DataLength(rs), NameLength(rs))
  }

  /** The lists as they are for the first groups and, within the next, the first resources. */
  ghost predicate ListsFor(lists: Lists, rs: seq<Resource>, start: nat) {
    && lists.entries == Entries(rs) && lists.datas == Datas(rs) && lists.names == Names(rs)
    && lists.entryOffset == start + ENTRY_SIZE * |rs|
    && lists.dataOffset == DataLength(rs) && lists.nameOffset == NameLength(rs)
  }

  method AddResource(lists: Lists, r: Resource, ghost rs: seq<Resource>, ghost start: nat) returns (lists': Lists)
    requires ListsFor(lists, rs, start)
    ensures ListsFor(lists', rs + [r], start) && lists'.items == lists.items
  {
    OneResource(rs, r);
    var entry := [Num(r.id), Num(if r.name != [] then lists.nameOffset else NO_NAME),
                  Num(r.attributes), Num(lists.dataOffset), Num(0)];
    lists' := lists.(entryOffset := lists.entryOffset + ENTRY_SIZE,
                     dataOffset := lists.dataOffset + |r.data| + 4,
                     datas := lists.datas + [r.data],
                     entries := lists.entries + [entry]);
    if r.name != [] {
      lists' := lists'.(nameOffset := lists.nameOffset + |r.name| + 1, names := lists.names + [r.name]);
    }
    hide Entries, Datas, Names, DataLength, NameLength, EntryOf;
  }

  method Collect(groups: seq<Group>) returns (lists: Lists)
    requires forall g :: 0 <= g < |groups| ==> groups[g].resources != []
    ensures lists == AllLists(groups)
  {
    hide *;
    ghost var start := TypesEnd(groups);
    ghost var done: seq<Resource> := [];
    lists := Lists([], [], [], [], 2 + TYPE_ITEM_SIZE * |groups|, 0, 0);
    NothingListed(groups);
    NothingFlat(groups);
    for g := 0 to |groups|
      invariant done == Flatten(groups[..g]) && ListsFor(lists, done, start)
      invariant |lists.items| == g && forall j :: 0 <= j < g ==> lists.items[j] == TypeItemOf(groups, j)
    {
      var rs := groups[g].resources;
      ghost var before := done;
      FlattenPrefix(groups, g);
      OffsetNow(lists, groups, g, done);
      lists := lists.(items := lists.items + [[Num(groups[g].typeId), Num(|rs| - 1), Num(lists.entryOffset)]]);
      ghost var items := lists.items;
      for i := 0 to |rs|
        invariant done == before + rs[..i] && ListsFor(lists, done, start) && lists.items == items
      {
        lists := AddResource(lists, rs[i], done, start);
        done := done + [rs[i]];
        assert rs[..i + 1] == rs[..i] + [rs[i]];
      }
      assert rs[..|rs|] == rs;
    }
    assert groups[..|groups|] == groups;
    assert lists.items == TypeItems(groups);
    ListsAre(lists, groups);
  }

  lemma ListsAre(lists: Lists, groups: seq<Group>)
    requires ListsFor(lists, Flatten(groups), TypesEnd(groups)) && lists.items == TypeItems(groups)
    ensures lists == AllLists(groups)
  {
    hide Flatten, Entries, Datas, Names, DataLength, NameLength, TypeItems;
  }

  lemma NothingListed(groups: seq<Group>)
    ensures ListsFor(Lists([], [], [], [], 2 + TYPE_ITEM_SIZE * |groups|, 0, 0), [], TypesEnd(groups))
  {
  }

  lemma NothingFlat(groups: seq<Group>)
    ensures Flatten(groups[..0]) == []
  {
  }

  lemma OffsetNow(lists: Lists, groups: seq<Group>, g: nat, done: seq<Resource>)
    requires g < |groups| && groups[g].resources != []
    requires ListsFor(lists, done, TypesEnd(groups)) && done == Flatten(groups[..g])
    ensures [Num(groups[g].typeId), Num(|groups[g].resources| - 1), Num(lists.entryOffset)] == TypeItemOf(groups, g)
    ensures forall items :: ListsFor(lists.(items := items), done, TypesEnd(groups))
  {
  }

  /** The file so far: the header, and from 0x100 on what has been written. */
  ghost predicate Written(data: seq<Byte>, header: seq<Byte>, body: seq<Byte>) {
    |header| <= DATA_OFFSET && HoldsAt(data, 0, header) && HoldsAt(data, DATA_OFFSET, body)
  }

  lemma WriteMore(before: seq<Byte>, after: seq<Byte>, header: seq<Byte>, body: seq<Byte>, bytes: seq<Byte>, ok: bool,
                  n: nat)
    requires Written(before, header, body) && DATA_OFFSET + |body| + |bytes| <= |before|
    requires Wrote(before, after, DATA_OFFSET + |body|, bytes, ok, n)
    ensures ok && |after| == |before| && Written(after, header, body + bytes)
  {
    var offset := DATA_OFFSET + |body|;
    assert bytes[..|bytes|] == bytes;
    assert forall i :: 0 <= i < offset ==> after[i] == before[i];
    assert after[..|header|] == before[..|header|] && after[DATA_OFFSET..offset] == before[DATA_OFFSET..offset];
    assert HoldsAt(after, offset, bytes) by {
      assert |bytes| == 0 ==> after[offset..offset] == bytes;
    }
    HoldsAtSplit(after, DATA_OFFSET, body, bytes);
  }

  /** Write structs one after the other. */
  method WriteTable(members: seq<Member>, rows: seq<seq<Value>>, size: nat, region: MemoryRegion, offset: nat,
                    ghost header: seq<Byte>, ghost body: seq<Byte>)
    returns (offset': nat)
    requires AllValid(members, rows) && NoStringsAll(members) && size == CheckedSizes(members)
    requires Written(region.data[..], header, body) && offset == DATA_OFFSET + |body|
    requires offset + |Table(members, rows)| <= region.data.Length
    modifies region.data
    ensures offset' == offset + |Table(members, rows)|
    ensures Written(region.data[..], header, body + Table(members, rows))
  {
    hide *;
    offset' := offset;
    NoRows(members, rows[..0]);
    assert body + [] == body;
    for k := 0 to |rows|
      invariant AllValid(members, rows[..k])
      invariant offset' == offset + |Table(members, rows[..k])|
      invariant Written(region.data[..], header, body + Table(members, rows[..k]))
    {
      TablePrefix(members, rows, k);
      RowLength(members, rows[k]);
      ghost var before := region.data[..];
      var ok, n := WriteStruct(members, rows[k], region, offset');
      WriteMore(before, region.data[..], header, body + Table(members, rows[..k]), SerializeAll(members, rows[k]), ok,
                n);
      assert body + Table(members, rows[..k]) + SerializeAll(members, rows[k]) == body + Table(members, rows[..k + 1]);
      offset' := offset' + size;
    }
    assert rows[..|rows|] == rows;
  }

  lemma NoRows(members: seq<Member>, rows: seq<seq<Value>>)
    requires rows == []
    ensures AllValid(members, rows) && Table(members, rows) == []
  {
  }

  lemma {:induction false} TablePrefix(members: seq<Member>, rows: seq<seq<Value>>, k: nat)
    requires AllValid(members, rows) && k < |rows|
    ensures ValidAll(members, rows[k]) && AllValid(members, rows[..k]) && AllValid(members, rows[..k + 1])
    ensures Table(members, rows[..k + 1]) == Table(members, rows[..k]) + SerializeAll(members, rows[k])
    ensures |Table(members, rows[..k + 1])| <= |Table(members, rows)|
    decreases |rows|
  {
    hide *;
    var n := |rows| - 1;
    TableStep(members, rows);
    if k == n {
      assert rows[..k + 1] == rows;
    } else {
      assert rows[..n][..k] == rows[..k] && rows[..n][..k + 1] == rows[..k + 1];
      TablePrefix(members, rows[..n], k);
    }
  }

  method WriteDatas(datas: seq<seq<Byte>>, region: MemoryRegion, ghost rs: seq<Resource>, ghost header: seq<Byte>)
    returns (offset: nat)
    requires AllFit(rs) && datas == Datas(rs)
    requires Written(region.data[..], header, []) && DATA_OFFSET + DataLength(rs) <= region.data.Length
    modifies region.data
    ensures offset == DATA_OFFSET + DataLength(rs)
    ensures Written(region.data[..], header, DataArea(rs))
  {
    hide *;
    offset := 0x100;
    NoData(rs[..0]);
    for k := 0 to |datas|
      invariant AllFit(rs[..k]) && offset == DATA_OFFSET + |DataArea(rs[..k])|
      invariant Written(region.data[..], header, DataArea(rs[..k]))
    {
      DataPrefix(rs, k);
      var size := BigEndian(|datas[k]|, 4);
      ghost var area := DataArea(rs[..k]);
      ghost var before := region.data[..];
      var ok := region.WriteRaw(size, offset);
      RawWrote(before, region.data[..], offset, size, ok);
      WriteMore(before, region.data[..], header, area, size, ok, 4);
      before := region.data[..];
      ok := region.WriteRaw(datas[k], offset + 4);
      RawWrote(before, region.data[..], offset + 4, datas[k], ok);
      WriteMore(before, region.data[..], header, area + size, datas[k], ok, |datas[k]|);
      assert area + size + datas[k] == area + (size + datas[k]);
      offset := offset + 4 + |datas[k]|;
    }
    assert rs[..|rs|] == rs;
  }

  lemma NoData(rs: seq<Resource>)
    requires rs == []
    ensures DATA_OFFSET == 0x100 && AllFit(rs) && DataArea(rs) == [] && NameArea(rs) == [] && Names(rs) == []
  {
  }

  lemma DataPrefix(rs: seq<Resource>, k: nat)
    requires AllFit(rs) && k < |rs|
    ensures AllFit(rs[..k]) && AllFit(rs[..k + 1]) && |rs[k].data| < 0x1_0000_0000
    ensures DataArea(rs[..k + 1]) == DataArea(rs[..k]) + (BigEndian(|rs[k].data|, 4) + rs[k].data)
    ensures |DataArea(rs[..k + 1])| <= DataLength(rs)
  {
    assert Fits(rs[k]);
    LengthPrefix(rs, k + 1);
    assert rs[..k + 1][..k] == rs[..k];
  }

  /** The names one after the other, each behind its length. */
  ghost function PackedNames(names: seq<seq<Byte>>): seq<Byte>
    requires forall k :: 0 <= k < |names| ==> |names[k]| < 255
  {
    if names == [] then [] else
      var n := |names| - 1;
      PackedNames(names[..n]) + ([|names[n]|] + names[n])
  }

  lemma {:induction false} NamesPacked(rs: seq<Resource>)
    requires AllFit(rs)
    ensures forall k :: 0 <= k < |Names(rs)| ==> |Names(rs)[k]| < 255
    ensures PackedNames(Names(rs)) == NameArea(rs)
  {
    if rs != [] {
      var n := |rs| - 1;
      NamesPacked(rs[..n]);
      NameStep(rs);
      if rs[n].name != [] {
        assert Names(rs)[..|Names(rs)| - 1] == Names(rs[..n]);
      } else {
        assert Names(rs) == Names(rs[..n]);
        assert NameItem(rs[n]) == [];
      }
    }
  }

  lemma {:induction false} PackedPrefix(names: seq<seq<Byte>>, k: nat)
    requires k < |names| && forall j :: 0 <= j < |names| ==> |names[j]| < 255
    ensures PackedNames(names[..k + 1]) == PackedNames(names[..k]) + ([|names[k]|] + names[k])
    ensures |PackedNames(names[..k + 1])| <= |PackedNames(names)|
    decreases |names|
  {
    var n := |names| - 1;
    if k == n {
      assert names[..k + 1] == names;
    } else {
      assert names[..n][..k] == names[..k] && names[..n][..k + 1] == names[..k + 1];
      PackedPrefix(names[..n], k);
    }
  }

  method WriteNames(names: seq<seq<Byte>>, region: MemoryRegion, start: nat, ghost header: seq<Byte>,
                    ghost body: seq<Byte>)
    requires forall k :: 0 <= k < |names| ==> |names[k]| < 255
    requires Written(region.data[..], header, body) && start == DATA_OFFSET + |body|
    requires start + |PackedNames(names)| <= region.data.Length
    modifies region.data
    ensures Written(region.data[..], header, body + PackedNames(names))
  {
    hide *;
    var offset := start;
    NothingPacked(names[..0]);
    assert body + [] == body;
    for k := 0 to |names|
      invariant offset == start + |PackedNames(names[..k])|
      invariant Written(region.data[..], header, body + PackedNames(names[..k]))
    {
      PackedPrefix(names, k);
      StringBytes(names[k]);
      ghost var before := region.data[..];
      ghost var packed := PackedNames(names[..k]);
      var ok, n := WriteString(names[k], region, offset);
      WriteMore(before, region.data[..], header, body + packed, [|names[k]|] + names[k], ok, n);
      assert body + packed + ([|names[k]|] + names[k]) == body + PackedNames(names[..k + 1]);
      offset := offset + 1 + |names[k]|;
    }
    assert names[..|names|] == names;
  }

  lemma NothingPacked(names: seq<seq<Byte>>)
    requires names == []
    ensures PackedNames(names) == []
  {
  }

  lemma StringBytes(s: seq<Byte>)
    requires |s| < 255
    ensures Valid(Str, Bytes(s)) && Serialize(Str, Bytes(s)) == [|s|] + s
  {
  }

  /** Everything after the header, in the order it is written. */
  lemma BodyLaid(groups: seq<Group>, data: seq<Byte>, body: seq<Byte>)
    requires WithinLimits(groups) && groups != [] && |data| == MapAt(groups) + MapLength(groups)
    requires ValidAll(HEADER, HeaderValues(groups)) && ValidAll(MAP_HEADER, MapHeaderValues(groups))
    requires AllValid(TYPE_ITEM, TypeItems(groups)) && AllFit(Flatten(groups))
             && AllValid(ENTRY, Entries(Flatten(groups)))
    requires body == DataArea(Flatten(groups)) + SerializeAll(MAP_HEADER, MapHeaderValues(groups))
                     + BigEndian(|groups| - 1, 2) + Table(TYPE_ITEM, TypeItems(groups))
                     + Table(ENTRY, Entries(Flatten(groups))) + NameArea(Flatten(groups))
    requires Written(data, SerializeAll(HEADER, HeaderValues(groups)), body)
    ensures Laid(data, groups)
  {
    hide *;
    var rs := Flatten(groups);
    var a, b, c := DataArea(rs), SerializeAll(MAP_HEADER, MapHeaderValues(groups)), BigEndian(|groups| - 1, 2);
    var d, e, f := Table(TYPE_ITEM, TypeItems(groups)), Table(ENTRY, Entries(rs)), NameArea(rs);
    WrittenHolds(data, SerializeAll(HEADER, HeaderValues(groups)), body);
    HoldsAtSplit(data, DATA_OFFSET, a + b + c + d + e, f);
    HoldsAtSplit(data, DATA_OFFSET, a + b + c + d, e);
    HoldsAtSplit(data, DATA_OFFSET, a + b + c, d);
    HoldsAtSplit(data, DATA_OFFSET, a + b, c);
    HoldsAtSplit(data, DATA_OFFSET, a, b);
    AreaLengths(groups);
    LaidFrom(groups, data);
  }

  lemma WrittenHolds(data: seq<Byte>, header: seq<Byte>, body: seq<Byte>)
    requires Written(data, header, body)
    ensures HoldsAt(data, 0, header) && HoldsAt(data, DATA_OFFSET, body)
  {
  }

  /** The areas are as long as the offsets say. */
  lemma AreaLengths(groups: seq<Group>)
    requires WithinLimits(groups)
    ensures ValidAll(HEADER, HeaderValues(groups)) && |SerializeAll(HEADER, HeaderValues(groups))| == 16
    ensures ValidAll(MAP_HEADER, MapHeaderValues(groups)) && AllFit(Flatten(groups))
    ensures AllValid(TYPE_ITEM, TypeItems(groups)) && AllValid(ENTRY, Entries(Flatten(groups)))
    ensures DATA_OFFSET + |DataArea(Flatten(groups))| == MapAt(groups)
    ensures MapAt(groups) + |SerializeAll(MAP_HEADER, MapHeaderValues(groups))| == TypesAt(groups)
    ensures TypesAt(groups) + 2 + |Table(TYPE_ITEM, TypeItems(groups))| == EntriesAt(groups)
    ensures EntriesAt(groups) + |Table(ENTRY, Entries(Flatten(groups)))| == NamesAt(groups)
    ensures NamesAt(groups) + |NameArea(Flatten(groups))| == MapAt(groups) + MapLength(groups)
  {
    RecordsValid(groups);
    StructSizes();
    RowLength(HEADER, HeaderValues(groups));
    RowLength(MAP_HEADER, MapHeaderValues(groups));
    TableLength(TYPE_ITEM, TypeItems(groups));
    TableLength(ENTRY, Entries(Flatten(groups)));
    hide Flatten, DataLength, NameLength, DataArea, NameArea, Table, SerializeAll, HEADER, MAP_HEADER, TYPE_ITEM, ENTRY,
         CheckedSizes, NoStringsAll, ValidAll, AllValid, AllFit, WithinLimits, HeaderValues, MapHeaderValues;
  }

  lemma LaidFrom(groups: seq<Group>, data: seq<Byte>)
    requires WithinLimits(groups) && |data| == MapAt(groups) + MapLength(groups)
    requires ValidAll(HEADER, HeaderValues(groups)) && HoldsAt(data, 0, SerializeAll(HEADER, HeaderValues(groups)))
    requires ValidAll(MAP_HEADER, MapHeaderValues(groups))
    requires HoldsAt(data, MapAt(groups), SerializeAll(MAP_HEADER, MapHeaderValues(groups)))
    requires HoldsAt(data, TypesAt(groups), BigEndian(|groups| - 1, 2))
    requires AllValid(TYPE_ITEM, TypeItems(groups))
    requires HoldsAt(data, TypesAt(groups) + 2, Table(TYPE_ITEM, TypeItems(groups)))
    requires AllFit(Flatten(groups)) && HoldsAt(data, DATA_OFFSET, DataArea(Flatten(groups)))
    requires AllValid(ENTRY, Entries(Flatten(groups)))
    requires HoldsAt(data, EntriesAt(groups), Table(ENTRY, Entries(Flatten(groups))))
    requires HoldsAt(data, NamesAt(groups), NameArea(Flatten(groups)))
    ensures Laid(data, groups)
  {
    hide Flatten, DataLength, NameLength, HoldsAt, Table, DataArea, NameArea, HEADER, MAP_HEADER, TYPE_ITEM, ENTRY,
         SerializeAll, BigEndian, ValidAll, AllValid, AllFit, WithinLimits, HeaderValues, MapHeaderValues, MapAt,
         TypesAt, EntriesAt, NamesAt, MapLength;
  }

  lemma LimitsGive(groups: seq<Group>)
    requires WithinLimits(groups)
    ensures 0 < |groups| && |groups| - 1 < 0x1_0000 && NoStringsAll(TYPE_ITEM) && NoStringsAll(ENTRY)
    ensures forall g :: 0 <= g < |groups| ==> groups[g].resources != []
    ensures CheckedSizes(TYPE_ITEM) == 8 && CheckedSizes(ENTRY) == 12
  {
    StructSizes();
    hide Flatten, NoStringsAll, CheckedSizes;
  }

  /** Lay out a file for the groups. The bytes between the header and 0x100 are whatever the buffer held. */
  method Save(groups: seq<Group>) returns (out: array<Byte>)
    requires WithinLimits(groups)
    ensures fresh(out) && Laid(out[..], groups)
    ensures LoadedFork(out[..]) == Ok(groups)
  {
    hide *;
    LimitsGive(groups);
    RecordsValid(groups);
    AreaLengths(groups);
    Positions(groups);
    ghost var rs := Flatten(groups);
    NamesPacked(rs);
    var lists := Collect(groups);
    ListsGive(lists, groups);
    var header := [Num(0x100), Num(0x100 + lists.dataOffset), Num(lists.dataOffset),
                   Num(28 + lists.entryOffset + lists.nameOffset)];
    var mapHeader := [Fields(header), Num(0), Num(0), Num(0), Num(28), Num(28 + lists.entryOffset)];
    var totalSize := 0x100 + lists.dataOffset + 28 + lists.entryOffset + lists.nameOffset;
    out := new Byte[totalSize];
    var region := new MemoryRegion(out);

    ghost var before := out[..];
    var ok, n := WriteStruct(HEADER, header, region, 0);
    ghost var head := SerializeAll(HEADER, header);
    HeaderWritten(before, out[..], head, ok, n);
    var offset := WriteDatas(lists.datas, region, rs, head);
    ghost var body := DataArea(rs);

    before := out[..];
    ok, n := WriteStruct(MAP_HEADER, mapHeader, region, offset);
    ghost var bytes := SerializeAll(MAP_HEADER, mapHeader);
    WriteMore(before, out[..], head, body, bytes, ok, n);
    body := body + bytes;
    offset := offset + 28;

    before := out[..];
    var count := BigEndian(|lists.items| - 1, 2);
    ok := region.WriteRaw(count, offset);
    RawWrote(before, out[..], offset, count, ok);
    WriteMore(before, out[..], head, body, count, ok, 2);
    body := body + count;

    offset := WriteTable(TYPE_ITEM, lists.items, 8, region, offset + 2, head, body);
    body := body + Table(TYPE_ITEM, lists.items);
    offset := WriteTable(ENTRY, lists.entries, 12, region, offset, head, body);
    body := body + Table(ENTRY, lists.entries);
    WriteNames(lists.names, region, offset, head, body);
    body := body + NameArea(rs);
    BodyLaid(groups, out[..], body);
    RoundTrip(groups, out[..]);
  }

  lemma HeaderWritten(before: seq<Byte>, after: seq<Byte>, head: seq<Byte>, ok: bool, n: nat)
    requires Wrote(before, after, 0, head, ok, n) && |head| == 16 && DATA_OFFSET <= |before|
    ensures |after| == |before| && Written(after, head, [])
  {
    assert head[..16] == head;
  }

  lemma ListsGive(lists: Lists, groups: seq<Group>)
    requires lists == AllLists(groups)
    ensures lists.entries == Entries(Flatten(groups)) && lists.datas == Datas(Flatten(groups))
            && lists.names == Names(Flatten(groups))
    ensures lists.items == TypeItems(groups) && lists.entryOffset == EntriesEnd(groups)
    ensures lists.dataOffset == DataLength(Flatten(groups)) && lists.nameOffset == NameLength(Flatten(groups))
    ensures MapLength(groups) == 28 + EntriesEnd(groups) + NameLength(Flatten(groups))
    ensures DATA_OFFSET == 0x100 && MAP_HEADER_SIZE == 28
  {
    hide Flatten, Entries, Datas, Names, DataLength, NameLength;
  }
}
