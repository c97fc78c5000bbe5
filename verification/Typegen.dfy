/** The struct compiler (`gen/typegen`): from the members of a struct it generates a reader, a writer, a `size()` and
    a table of offsets. The emitted code is data here, and is run against a memory region. */
module Typegen {
  import opened Memory

  // ---- Declarations and values ------------------------------------------------------------------

  datatype Type =
    | Integer(width: nat, signed: bool)
    | Boolean
    | U24
    | Raw(count: nat)
    | Str
    | Struct(members: seq<Member>)

  datatype Member = Member(id: string, ty: Type)

  datatype Value = Num(n: int) | Flag(b: bool) | Bytes(bytes: seq<Byte>) | Fields(fields: seq<Value>)

  /** The value has the form its type asks for. */
  ghost predicate Shape(ty: Type, v: Value)
    decreases ty
  {
    match ty
    case Integer(_, signed) => v.Num? && (signed || v.n >= 0)
    case U24 => v.Num? && v.n >= 0
    case Boolean => v.Flag?
    case Raw(count) => v.Bytes? && |v.bytes| == count
    case Str => v.Bytes?
    case Struct(members) => v.Fields? && ShapeAll(members, v.fields)
  }

  ghost predicate ShapeAll(members: seq<Member>, values: seq<Value>)
    decreases members
  {
    |members| == |values| && forall i :: 0 <= i < |members| ==> Shape(members[i].ty, values[i])
  }

  /** The value fits its type: integers in range, strings shorter than 255 bytes. */
  ghost predicate Valid(ty: Type, v: Value)
    decreases ty
  {
    Shape(ty, v) &&
    match ty
    case Integer(width, signed) =>
      if signed then 0 <= 2 * v.n + Pow256(width) < 2 * Pow256(width) else 0 <= v.n < Pow256(width)
    case U24 => 0 <= v.n < Pow256(3)
    case Str => |v.bytes| < 255
    case Struct(members) => ValidAll(members, v.fields)
    case _ => true
  }

  ghost predicate ValidAll(members: seq<Member>, values: seq<Value>): (ok: bool)
    ensures ok ==> ShapeAll(members, values)
    decreases members
  {
    |members| == |values| && forall i :: 0 <= i < |members| ==> Valid(members[i].ty, values[i])
  }

  // ---- Layout -----------------------------------------------------------------------------------

  /** How many bytes a value takes. */
  ghost function Span(ty: Type, v: Value): nat
    requires Shape(ty, v)
    decreases ty
  {
    match ty
    case Integer(width, _) => width
    case Boolean => 1
    case U24 => 3
    case Raw(count) => count
    case Str => 1 + |v.bytes|
    case Struct(members) => SpanAll(members, v.fields)
  }

  ghost function SpanAll(members: seq<Member>, values: seq<Value>): nat
    requires ShapeAll(members, values)
    decreases members
  {
    if members == [] then 0 else
      var n := |members| - 1;
      SpanAll(members[..n], values[..n]) + Span(members[n].ty, values[n])
  }

  function BoolByte(b: bool): Byte { if b then 1 else 0 }

  /** The bytes of a value: members one after the other, numbers big-endian, strings after a length byte. */
  ghost function Serialize(ty: Type, v: Value): (s: seq<Byte>)
    requires Valid(ty, v)
    ensures |s| == Span(ty, v)
    decreases ty
  {
    match ty
    case Integer(width, _) => BigEndian(ToUnsigned(v.n, width), width)
    case Boolean => [BoolByte(v.b)]
    case U24 => BigEndian(v.n, 3)
    case Raw(_) => v.bytes
    case Str => [|v.bytes|] + v.bytes
    case Struct(members) => SerializeAll(members, v.fields)
  }

  ghost function SerializeAll(members: seq<Member>, values: seq<Value>): (s: seq<Byte>)
    requires ValidAll(members, values)
    ensures ShapeAll(members, values) && |s| == SpanAll(members, values)
    decreases members
  {
    if members == [] then [] else
      var n := |members| - 1;
      SerializeAll(members[..n], values[..n]) + Serialize(members[n].ty, values[n])
  }

  /** What is found at an offset of the memory, member after member. */
  ghost function Parse(ty: Type, data: seq<Byte>, offset: nat): (r: Result<Value>)
    ensures r.Ok? ==> Shape(ty, r.value)
    decreases ty
  {
    match ty
    case Integer(width, signed) =>
      if |data| < offset + width then OutOfRange else
        var n := FromBigEndian(data[offset..offset + width]);
        Ok(Num(if signed then ToSigned(n, width) else n))
    case Boolean => if |data| < offset + 1 then OutOfRange else Ok(Flag(data[offset] % 2 == 1))
    case U24 => if |data| < offset + 3 then OutOfRange else Ok(Num(FromBigEndian(data[offset..offset + 3])))
    case Raw(count) => if |data| < offset + count then OutOfRange else Ok(Bytes(data[offset..offset + count]))
    case Str =>
      if |data| < offset + 1 then OutOfRange
      else if |data| < offset + 1 + data[offset] then Unchecked
      else Ok(Bytes(data[offset + 1..offset + 1 + data[offset]]))
    case Struct(members) =>
      var r := ParseAll(members, data, offset);
      if r.Ok? then Ok(Fields(r.value)) else Failed(r)
  }

  ghost function ParseAll(members: seq<Member>, data: seq<Byte>, offset: nat): (r: Result<seq<Value>>)
    ensures r.Ok? ==> ShapeAll(members, r.value)
    decreases members
  {
    if members == [] then Ok([]) else
      var n := |members| - 1;
      var before := ParseAll(members[..n], data, offset);
      if !before.Ok? then before else
        var last := Parse(members[n].ty, data, offset + SpanAll(members[..n], before.value));
        if last.Ok? then Ok(before.value + [last.value]) else Failed(last)
  }

  /** Reading inverts writing, at every offset and whatever else the memory holds. */
  lemma {:induction false} ParseInverts(ty: Type, v: Value, data: seq<Byte>, offset: nat)
    requires Valid(ty, v) && HoldsAt(data, offset, Serialize(ty, v))
    ensures Parse(ty, data, offset) == Ok(v)
    decreases ty
  {
    match ty
    case Struct(members) => ParseAllInverts(members, v.fields, data, offset);
    case Str => StringInverts(v, data, offset);
    case _ => ScalarInverts(ty, v, data, offset);
  }

  lemma StringInverts(v: Value, data: seq<Byte>, offset: nat)
    requires Valid(Str, v) && HoldsAt(data, offset, Serialize(Str, v))
    ensures Parse(Str, data, offset) == Ok(v)
  {
    HoldsAtSplit(data, offset, [|v.bytes|], v.bytes);
    assert data[offset] == data[offset..offset + 1][0];
  }

  lemma ScalarInverts(ty: Type, v: Value, data: seq<Byte>, offset: nat)
    requires !ty.Str? && !ty.Struct?
    requires Valid(ty, v) && HoldsAt(data, offset, Serialize(ty, v))
    ensures Parse(ty, data, offset) == Ok(v)
  {
    match ty
    case Integer(width, signed) => IntegerInverts(width, signed, v, data, offset);
    case U24 => U24Inverts(v, data, offset);
    case Boolean => BooleanInverts(v, data, offset);
    case Raw(_) =>
  }

  lemma IntegerInverts(width: nat, signed: bool, v: Value, data: seq<Byte>, offset: nat)
    requires var ty := Integer(width, signed); Valid(ty, v) && HoldsAt(data, offset, Serialize(ty, v))
    ensures Parse(Integer(width, signed), data, offset) == Ok(v)
  {
    hide *;
    UnsignedBack(width, signed, v);
    BigEndianInverts(ToUnsigned(v.n, width), width);
    IntegerParse(width, signed, data, offset, BigEndian(ToUnsigned(v.n, width), width));
  }

  lemma UnsignedBack(width: nat, signed: bool, v: Value)
    requires Valid(Integer(width, signed), v)
    ensures v.Num? && 0 <= ToUnsigned(v.n, width) < Pow256(width)
    ensures Serialize(Integer(width, signed), v) == BigEndian(ToUnsigned(v.n, width), width)
    ensures v.n == if signed then ToSigned(ToUnsigned(v.n, width), width) else ToUnsigned(v.n, width)
  {
    hide Pow256, BigEndian;
  }

  lemma IntegerParse(width: nat, signed: bool, data: seq<Byte>, offset: nat, bytes: seq<Byte>)
    requires |bytes| == width && HoldsAt(data, offset, bytes)
    ensures Parse(Integer(width, signed), data, offset)
            == Ok(Num(if signed then ToSigned(FromBigEndian(bytes), width) else FromBigEndian(bytes)))
  {
    hide Pow256, FromBigEndian, ToSigned;
  }

  lemma U24Inverts(v: Value, data: seq<Byte>, offset: nat)
    requires Valid(U24, v) && HoldsAt(data, offset, Serialize(U24, v))
    ensures Parse(U24, data, offset) == Ok(v)
  {
    BigEndianInverts(v.n, 3);
    hide BigEndian, FromBigEndian, Pow256;
  }

  lemma BooleanInverts(v: Value, data: seq<Byte>, offset: nat)
    requires Valid(Boolean, v) && HoldsAt(data, offset, Serialize(Boolean, v))
    ensures Parse(Boolean, data, offset) == Ok(v)
  {
    assert data[offset] == data[offset..offset + 1][0];
  }

  lemma {:induction false} ParseAllInverts(members: seq<Member>, values: seq<Value>, data: seq<Byte>, offset: nat)
    requires ValidAll(members, values) && HoldsAt(data, offset, SerializeAll(members, values))
    ensures ParseAll(members, data, offset) == Ok(values)
    decreases members
  {
    if members != [] {
      var n := |members| - 1;
      HoldsAtSplit(data, offset, SerializeAll(members[..n], values[..n]), Serialize(members[n].ty, values[n]));
      ParseAllInverts(members[..n], values[..n], data, offset);
      ParseInverts(members[n].ty, values[n], data, offset + SpanAll(members[..n], values[..n]));
      assert values == values[..n] + [values[n]];
    }
  }

  /** The bytes of each kind of value. */
  lemma SerializeIs(ty: Type, v: Value)
    requires Valid(ty, v)
    ensures var s := Serialize(ty, v);
            match ty
            case Integer(width, _) => v.n + Pow256(width) >= 0
              && |s| == width && NumberAt(s, 0, if v.n < 0 then v.n + Pow256(width) else v.n, width)
            case U24 => |s| == 3 && NumberAt(s, 0, v.n, 3)
            case Boolean => s == if v.b then [1] else [0]
            case Raw(_) => s == v.bytes
            case Str => s == [|v.bytes|] + v.bytes
            case Struct(members) => s == SerializeAll(members, v.fields)
  {
    match ty
    case Integer(width, _) => HoldsNumber(Serialize(ty, v), 0, ToUnsigned(v.n, width), width);
    case U24 => HoldsNumber(Serialize(ty, v), 0, v.n, 3);
    case _ =>
  }

  /** A struct's bytes are those of its members, one after the other. */
  lemma MemberBytes(members: seq<Member>, values: seq<Value>, k: nat)
    requires ValidAll(members, values) && k < |members|
    ensures ValidAll(members[..k], values[..k]) && ValidAll(members[..k + 1], values[..k + 1])
    ensures |SerializeAll(members[..0], values[..0])| == 0
    ensures var at, bytes := |SerializeAll(members[..k], values[..k])|, Serialize(members[k].ty, values[k]);
            && |SerializeAll(members[..k + 1], values[..k + 1])| == at + |bytes|
            && HoldsAt(SerializeAll(members, values), at, bytes)
  {
    hide Valid, Serialize;
    SerializeStep(members, k, values);
    var rest := SerializeExtends(members, k + 1, values);
  }

  /** What is found in memory, for each kind of value but structs. Only the lowest bit of a boolean counts. */
  lemma ParseIs(ty: Type, data: seq<Byte>, offset: nat)
    ensures var r := Parse(ty, data, offset);
            match ty
            case Integer(width, signed) =>
              if |data| < offset + width then r == OutOfRange else
              exists n: nat :: NumberAt(data, offset, n, width) && n < Pow256(width)
                && r == Ok(Num(if signed && 2 * n >= Pow256(width) then n - Pow256(width) else n))
            case U24 =>
              if |data| < offset + 3 then r == OutOfRange else
              exists n: nat :: NumberAt(data, offset, n, 3) && n < 0x100_0000 && r == Ok(Num(n))
            case Boolean =>
              r == if offset < |data| then Ok(Flag(data[offset] % 2 == 1)) else OutOfRange
            case Raw(count) =>
              r == if offset + count <= |data| then Ok(Bytes(data[offset..offset + count])) else OutOfRange
            case Str =>
              r == if |data| <= offset then OutOfRange
                   else if |data| < offset + 1 + data[offset] then Unchecked
                   else Ok(Bytes(data[offset + 1..offset + 1 + data[offset]]))
            case Struct(_) => true
  {
    hide NumberAt, Pow256, FromBigEndian;
    match ty
    case Integer(width, signed) =>
      if offset + width <= |data| {
        ReadNumber(data, offset, width);
      }
    case U24 =>
      if offset + 3 <= |data| {
        ReadNumber(data, offset, 3);
        ThreeBytes();
      }
    case _ =>
  }

  lemma ThreeBytes()
    ensures Pow256(3) == 0x100_0000
  {
    assert Pow256(0) == 1;
  }

  // ---- The generator ----------------------------------------------------------------------------

  /** The size of a member whose length is only known from the object: `m.size() + 1` or `m.size()`. */
  datatype Term = StringSpan(member: nat) | StructSpan(member: nat)

  /** An emitted offset: a number the generator has added up, and the terms it leaves to run time. */
  datatype OffsetExpr = OffsetExpr(fixed: nat, terms: seq<Term>)

  /** `obj.m = Read...(region, offset + at)` */
  datatype ReadStep = ReadStep(member: nat, at: OffsetExpr)

  datatype Advance = Constant(n: nat) | Size | OnePlusSize

  /** `Write...(obj.m, region, total_offset); total_offset += advance` */
  datatype WriteStep = WriteStep(member: nat, advance: Advance)

  datatype Field = Field(offset: nat, size: nat) {
    /** A field of a field. */
    function Plus(other: Field): Field {
      Field(offset + other.offset, other.size)
    }
  }

  /** What the members before `k` add to an emitted offset. */
  function OffsetAt(members: seq<Member>, k: nat): OffsetExpr
    requires k <= |members|
  {
    if k == 0 then OffsetExpr(0, []) else
      var before := OffsetAt(members, k - 1);
      match members[k - 1].ty
      case Str => before.(terms := before.terms + [StringSpan(k - 1)])
      case Struct(_) => before.(terms := before.terms + [StructSpan(k - 1)])
      case U24 => before.(fixed := before.fixed + 3)
      case Boolean => before.(fixed := before.fixed + 1)
      case Integer(width, _) => before.(fixed := before.fixed + width)
      case Raw(count) => before.(fixed := before.fixed + count)
  }

  /** The bytes the type checker counts for a type: a string counts one. */
  function CheckedSize(ty: Type): nat {
    match ty
    case Integer(width, _) => width
    case Boolean => 1
    case U24 => 3
    case Raw(count) => count
    case Str => 1
    case Struct(members) => CheckedSizes(members)
  }

  function CheckedSizes(members: seq<Member>): nat {
    if members == [] then 0 else
      var n := |members| - 1;
      CheckedSizes(members[..n]) + CheckedSize(members[n].ty)
  }

  /** The reader of a struct and its `size()`. */
  method WriteReadType(members: seq<Member>) returns (steps: seq<ReadStep>, size: OffsetExpr)
    ensures |steps| == |members|
    ensures forall k :: 0 <= k < |members| ==> steps[k] == ReadStep(k, OffsetAt(members, k))
    ensures size == OffsetAt(members, |members|)
  {
    steps := [];
    var offsetVariables: seq<Term> := [];
    var offset: nat := 0;
    for k := 0 to |members|
      invariant |steps| == k
      invariant forall j :: 0 <= j < k ==> steps[j] == ReadStep(j, OffsetAt(members, j))
      invariant OffsetExpr(offset, offsetVariables) == OffsetAt(members, k)
    {
      var ty := members[k].ty;
      steps := steps + [ReadStep(k, OffsetExpr(offset, offsetVariables))];
      if ty.Str? {
        offsetVariables := offsetVariables + [StringSpan(k)];
      } else if ty.Struct? {
        offsetVariables := offsetVariables + [StructSpan(k)];
      } else if ty.U24? {
        offset := offset + 3;
      } else {
        offset := offset + CheckedSize(ty);
      }
    }
    size := OffsetExpr(offset, offsetVariables);
  }

  /** The size of a struct, and whether it holds a string of its own. */
  method CheckStruct(members: seq<Member>) returns (fixedSize: nat, isDynamic: bool)
    ensures fixedSize == CheckedSizes(members)
    ensures isDynamic <==> exists k :: 0 <= k < |members| && members[k].ty.Str?
  {
    fixedSize, isDynamic := 0, false;
    for k := 0 to |members|
      invariant fixedSize == CheckedSizes(members[..k])
      invariant isDynamic <==> exists j :: 0 <= j < k && members[j].ty.Str?
    {
      if members[k].ty.Str? {
        isDynamic := true;
      }
      fixedSize := fixedSize + CheckedSize(members[k].ty);
      assert members[..k + 1][..k] == members[..k];
    }
    assert members[..|members|] == members;
  }

  /** The table of offsets. */
  method WriteOffsets(members: seq<Member>) returns (table: seq<Field>)
    ensures |table| == |members|
    ensures forall k :: 0 <= k < |members| ==> table[k] == Field(CheckedSizes(members[..k]), CheckedSize(members[k].ty))
  {
    table := [];
    var fieldOffset := 0;
    for k := 0 to |members|
      invariant |table| == k && fieldOffset == CheckedSizes(members[..k])
      invariant forall j :: 0 <= j < k ==> table[j] == Field(CheckedSizes(members[..j]), CheckedSize(members[j].ty))
    {
      table := table + [Field(fieldOffset, CheckedSize(members[k].ty))];
      fieldOffset := fieldOffset + CheckedSize(members[k].ty);
      assert members[..k + 1][..k] == members[..k];
    }
  }

  // ---- What an emitted offset comes to ----------------------------------------------------------

  /** The terms refer to members that have been filled in. */
  ghost predicate TermsFit(terms: seq<Term>, members: seq<Member>, values: seq<Value>) {
    && |values| <= |members|
    && forall t :: t in terms ==>
         && t.member < |values| && Shape(members[t.member].ty, values[t.member])
         && (if t.StringSpan? then members[t.member].ty.Str? else members[t.member].ty.Struct?)
  }

  function TermValue(t: Term, members: seq<Member>, values: seq<Value>): nat
    requires TermsFit([t], members, values)
    decreases members, 0, 0
  {
    assert t in [t];
    match t
    case StringSpan(i) => |values[i].bytes| + 1
    case StructSpan(i) => SizeOf(members[i].ty.members, values[i].fields)
  }

  function TermsValue(terms: seq<Term>, members: seq<Member>, values: seq<Value>): nat
    requires TermsFit(terms, members, values)
    decreases members, 1, |terms|
  {
    if terms == [] then 0 else
      var n := |terms| - 1;
      TermsValue(terms[..n], members, values) + TermValue(terms[n], members, values)
  }

  function Eval(e: OffsetExpr, members: seq<Member>, values: seq<Value>): nat
    requires TermsFit(e.terms, members, values)
    decreases members, 2, 0
  {
    e.fixed + TermsValue(e.terms, members, values)
  }

  /** The generated `size()`. */
  function SizeOf(members: seq<Member>, values: seq<Value>): nat
    requires ShapeAll(members, values)
    decreases members, 3, 0
  {
    OffsetTermsFit(members, |members|, values);
    Eval(OffsetAt(members, |members|), members, values)
  }

  lemma {:induction false} OffsetTermsFit(members: seq<Member>, k: nat, values: seq<Value>)
    requires k <= |values| <= |members| && ShapeAll(members[..|values|], values)
    ensures TermsFit(OffsetAt(members, k).terms, members, values)
  {
    if k > 0 {
      OffsetTermsFit(members, k - 1, values);
      assert members[..|values|][k - 1] == members[k - 1];
    }
  }

  /** Every emitted offset is the number of bytes the members before it take in this very object. */
  lemma {:induction false} OffsetIsSpan(members: seq<Member>, k: nat, values: seq<Value>)
    requires k <= |values| <= |members| && ShapeAll(members[..|values|], values)
    ensures TermsFit(OffsetAt(members, k).terms, members, values)
    ensures ShapeAll(members[..k], values[..k])
    ensures Eval(OffsetAt(members, k), members, values) == SpanAll(members[..k], values[..k])
    decreases members, k
  {
    OffsetTermsFit(members, k, values);
    PrefixShape(members, k, values);
    if k > 0 {
      var ty, v := members[k - 1].ty, values[k - 1];
      OffsetIsSpan(members, k - 1, values);
      SpanStep(members, k, values);
      var before := OffsetAt(members, k - 1);
      if ty.Str? {
        TermsValueAppend(before.terms, StringSpan(k - 1), members, values);
      } else if ty.Struct? {
        SizeIsSpan(ty.members, v.fields);
        TermsValueAppend(before.terms, StructSpan(k - 1), members, values);
      }
    }
  }

  lemma TermsValueAppend(terms: seq<Term>, t: Term, members: seq<Member>, values: seq<Value>)
    requires TermsFit(terms + [t], members, values)
    ensures TermsFit(terms, members, values) && TermsFit([t], members, values)
    ensures TermsValue(terms + [t], members, values)
            == TermsValue(terms, members, values) + TermValue(t, members, values)
  {
    forall u | u in terms || u == t ensures u in terms + [t] {}
    assert (terms + [t])[..|terms|] == terms;
  }

  lemma SpanStep(members: seq<Member>, k: nat, values: seq<Value>)
    requires 0 < k <= |values| <= |members| && ShapeAll(members[..|values|], values)
    ensures ShapeAll(members[..k], values[..k]) && ShapeAll(members[..k - 1], values[..k - 1])
    ensures Shape(members[k - 1].ty, values[k - 1])
    ensures SpanAll(members[..k], values[..k])
            == SpanAll(members[..k - 1], values[..k - 1]) + Span(members[k - 1].ty, values[k - 1])
  {
    PrefixShape(members, k, values);
    PrefixShape(members, k - 1, values);
    assert members[..k][..k - 1] == members[..k - 1] && values[..k][..k - 1] == values[..k - 1];
    assert members[..|values|][k - 1] == members[k - 1];
  }

  lemma PrefixShape(members: seq<Member>, k: nat, values: seq<Value>)
    requires k <= |values| <= |members| && ShapeAll(members[..|values|], values)
    ensures ShapeAll(members[..k], values[..k])
  {
    forall i | 0 <= i < k ensures Shape(members[..k][i].ty, values[..k][i]) {
      assert members[..|values|][i] == members[i];
    }
  }

  /** The generated `size()` is the number of bytes the writer writes. */
  lemma {:induction false} SizeIsSpan(members: seq<Member>, values: seq<Value>)
    requires ShapeAll(members, values)
    ensures SizeOf(members, values) == SpanAll(members, values)
    decreases members, |members| + 1
  {
    var n := |members|;
    assert members[..n] == members && values[..n] == values;
    OffsetIsSpan(members, n, values);
  }

  /** The value of an emitted `total_offset += ...` for an object. */
  function Advanced(advance: Advance, ty: Type, v: Value): nat
    requires Shape(ty, v) && (advance.OnePlusSize? ==> ty.Str?) && (advance.Size? ==> ty.Struct?)
  {
    match advance
    case Constant(n) => n
    case OnePlusSize => 1 + |v.bytes|
    case Size => SizeOf(ty.members, v.fields)
  }

  /** For every object, the emitted advance is the number of bytes its member takes. */
  ghost predicate AdvancesBySpan(advance: Advance, ty: Type) {
    && (advance.OnePlusSize? ==> ty.Str?) && (advance.Size? ==> ty.Struct?)
    && forall v :: Shape(ty, v) ==> Advanced(advance, ty, v) == Span(ty, v)
  }

  /** The writer of a struct. */
  method WriteWriteType(members: seq<Member>) returns (steps: seq<WriteStep>)
    ensures |steps| == |members|
    ensures forall k :: 0 <= k < |members| ==> steps[k].member == k && AdvancesBySpan(steps[k].advance, members[k].ty)
  {
    hide AdvancesBySpan;
    steps := [];
    for k := 0 to |members|
      invariant |steps| == k
      invariant forall j :: 0 <= j < k ==> steps[j].member == j && AdvancesBySpan(steps[j].advance, members[j].ty)
    {
      var ty := members[k].ty;
      var advance := if ty.Str? then OnePlusSize
                     else if ty.Struct? then Size
                     else if ty.U24? then Constant(3)
                     else if ty.Raw? then Constant(ty.count)
                     else if ty.Boolean? then Constant(1)
                     else Constant(CheckedSize(ty));
      AdvanceIsSpan(advance, ty);
      steps := steps + [WriteStep(k, advance)];
    }
  }

  lemma AdvanceIsSpan(advance: Advance, ty: Type)
    requires advance == match ty
                        case Str => OnePlusSize
                        case Struct(_) => Size
                        case _ => Constant(CheckedSize(ty))
    ensures AdvancesBySpan(advance, ty)
  {
    forall v | Shape(ty, v) ensures Advanced(advance, ty, v) == Span(ty, v) {
      if ty.Struct? {
        SizeIsSpan(ty.members, v.fields);
      }
    }
  }

  // ---- Reading and writing one member -----------------------------------------------------------

  /** `bytes` was written at `offset`, or a first part of it if the memory ends too soon. */
  ghost predicate Wrote(before: seq<Byte>, after: seq<Byte>, offset: nat, bytes: seq<Byte>, ok: bool, n: nat) {
    && n <= |bytes| && |after| == |before|
    && (offset + |bytes| <= |before| ==> ok) && (ok ==> n == |bytes|)
    && if n == 0 then after == before else offset + n <= |before| && after == Stored(before, offset, bytes[..n])
  }

  lemma WroteThen(before: seq<Byte>, middle: seq<Byte>, after: seq<Byte>, offset: nat,
                  first: seq<Byte>, second: seq<Byte>, ok: bool, n: nat)
    requires Wrote(before, middle, offset, first, true, |first|)
    requires Wrote(middle, after, offset + |first|, second, ok, n)
    ensures Wrote(before, after, offset, first + second, ok, |first| + n)
  {
    assert (first + second)[..|first| + n] == first + second[..n];
    assert first[..|first|] == first;
    if n > 0 && |first| > 0 {
      StoredTwice(before, offset, first, second[..n]);
    }
  }

  lemma WroteLess(before: seq<Byte>, after: seq<Byte>, offset: nat, first: seq<Byte>, second: seq<Byte>, n: nat)
    requires Wrote(before, after, offset, first, false, n)
    ensures Wrote(before, after, offset, first + second, false, n)
  {
    assert (first + second)[..n] == first[..n];
  }

  /** A 32-bit word with its bytes in the other order. */
  function ByteSwap(w: nat): nat
    requires w < 0x1_0000_0000
  {
    var w1 := w / 0x100;
    var w2 := w1 / 0x100;
    w % 0x100 * 0x100_0000 + w1 % 0x100 * 0x1_0000 + w2 % 0x100 * 0x100 + w2 / 0x100
  }

  function Word(b0: Byte, b1: Byte, b2: Byte, b3: Byte): nat {
    b0 + 0x100 * (b1 + 0x100 * (b2 + 0x100 * b3))
  }

  lemma Digit(b: Byte, rest: nat)
    ensures (b + 0x100 * rest) % 0x100 == b && (b + 0x100 * rest) / 0x100 == rest
  {
  }

  lemma SwapWord(b0: Byte, b1: Byte, b2: Byte, b3: Byte)
    ensures Word(b0, b1, b2, b3) < 0x1_0000_0000
    ensures ByteSwap(Word(b0, b1, b2, b3)) == Word(b3, b2, b1, b0)
  {
    Digit(b0, b1 + 0x100 * (b2 + 0x100 * b3));
    Digit(b1, b2 + 0x100 * b3);
    Digit(b2, b3);
  }

  lemma BigEndian3(b0: Byte, b1: Byte, b2: Byte)
    ensures FromBigEndian([b0, b1, b2]) == Word(b2, b1, b0, 0)
    ensures BigEndian(Word(b2, b1, b0, 0), 3) == [b0, b1, b2]
  {
    assert [b0, b1, b2][..2] == [b0, b1] && [b0, b1][..1] == [b0] && [b0][..0] == [];
    assert FromBigEndian([b0]) == b0;
    assert FromBigEndian([b0, b1]) == 0x100 * FromBigEndian([b0]) + b1;
    Digit(b2, b1 + 0x100 * b0);
    Digit(b1, b0);
    assert BigEndian(b0, 1) == BigEndian(b0 / 256, 0) + [b0 % 256] == [b0];
    assert BigEndian(b1 + 0x100 * b0, 2) == [b0, b1];
  }

  lemma DropHigh(low: nat, high: nat)
    requires low < 0x1_0000_0000
    ensures (low + 0x1_0000_0000 * high) % 0x1_0000_0000 == low
  {
  }

  /** Shifting a word left by a byte loses its top byte. */
  lemma ShiftLeft(b0: Byte, b1: Byte, b2: Byte, junk: Byte)
    ensures Word(b0, b1, b2, junk) * 0x100 % 0x1_0000_0000 == Word(0, b0, b1, b2)
  {
    DropHigh(Word(0, b0, b1, b2), junk);
  }

  /** The bytes of a number below 2^32. */
  lemma WordOf(value: nat) returns (b0: Byte, b1: Byte, b2: Byte, b3: Byte)
    requires value < 0x1_0000_0000
    ensures value == Word(b0, b1, b2, b3) && value % 0x100_0000 == Word(b0, b1, b2, 0)
  {
    var v1 := value / 0x100;
    var v2 := v1 / 0x100;
    b0, b1, b2, b3 := value % 0x100, v1 % 0x100, v2 % 0x100, v2 / 0x100;
    assert value == Word(b0, b1, b2, 0) + 0x100_0000 * b3;
  }

  /** Three bytes land in the low end of a little-endian word whose top byte is whatever was there. */
  method CopyU24(region: MemoryRegion, offset: nat, junk: Byte) returns (r: Result<nat>)
    ensures r == if offset + 3 <= region.data.Length then Ok(FromBigEndian(region.data[offset..offset + 3]))
            else OutOfRange
  {
    var raw := region.ReadRaw(offset, 3);
    if !raw.Ok? {
      return OutOfRange;
    }
    var b := raw.value;
    ShiftLeft(b[0], b[1], b[2], junk);
    SwapWord(0, b[0], b[1], b[2]);
    BigEndian3(b[0], b[1], b[2]);
    hide *;
    assert b == [b[0], b[1], b[2]];
    return Ok(ByteSwap(Word(b[0], b[1], b[2], junk) * 0x100 % 0x1_0000_0000));
  }

  method WriteU24(value: nat, region: MemoryRegion, offset: nat) returns (ok: bool)
    requires value < 0x1_0000_0000
    modifies region.data
    ensures ok == (offset + 3 <= region.data.Length)
    ensures region.data[..] == if ok then Stored(old(region.data[..]), offset, BigEndian(value % 0x100_0000, 3))
                               else old(region.data[..])
  {
    var raw := LowBytes(ByteSwap(value) / 0x100);
    ghost var b0, b1, b2, b3 := WordOf(value);
    BigEndian3(b2, b1, b0);
    assert raw == [b2, b1, b0] by {
      SwapWord(b0, b1, b2, b3);
      Digit(b3, Word(b2, b1, b0, 0));
      Digit(b2, Word(b1, b0, 0, 0));
      Digit(b1, b0);
      Digit(b0, 0);
    }
    ok := region.WriteRaw(raw, offset);
  }

  /** The first three bytes of a little-endian word. */
  function LowBytes(w: nat): (s: seq<Byte>)
    ensures |s| == 3
  {
    var w1 := w / 0x100;
    [w % 0x100, w1 % 0x100, w1 / 0x100 % 0x100]
  }

  method ReadScalar(ty: Type, region: MemoryRegion, offset: nat, junk: Byte) returns (r: Result<Value>)
    requires !ty.Str? && !ty.Struct?
    ensures r == Parse(ty, region.data[..], offset)
  {
    match ty
    case U24 =>
      var n := CopyU24(region, offset, junk);
      return if n.Ok? then Ok(Num(n.value)) else OutOfRange;
    case Raw(count) =>
      var raw := region.ReadRaw(offset, count);
      return if raw.Ok? then Ok(Bytes(raw.value)) else OutOfRange;
    case Boolean =>
      var raw := region.ReadRaw(offset, 1);
      return if raw.Ok? then Ok(Flag(raw.value[0] % 2 == 1)) else OutOfRange;
    case Integer(width, signed) =>
      var raw := region.ReadRaw(offset, width);
      if !raw.Ok? {
        return OutOfRange;
      }
      var n := FromBigEndian(raw.value);
      return Ok(Num(if signed then ToSigned(n, width) else n));
  }

  /** The length byte is checked, the bytes after it are not. */
  method ReadString(region: MemoryRegion, offset: nat) returns (r: Result<Value>)
    ensures r == Parse(Str, region.data[..], offset)
  {
    var raw := region.ReadRaw(offset, 1);
    if !raw.Ok? {
      return OutOfRange;
    }
    var length := raw.value[0];
    if region.data.Length < offset + 1 + length {
      return Unchecked;
    }
    return Ok(Bytes(region.data[offset + 1..offset + 1 + length]));
  }

  method ReadMember(ty: Type, region: MemoryRegion, offset: nat, junk: Byte) returns (r: Result<Value>)
    ensures r == Parse(ty, region.data[..], offset)
    decreases ty
  {
    if ty.Str? {
      r := ReadString(region, offset);
    } else if ty.Struct? {
      var fields := ReadStruct(ty.members, region, offset, junk);
      r := if fields.Ok? then Ok(Fields(fields.value)) else Failed(fields);
    } else {
      r := ReadScalar(ty, region, offset, junk);
    }
  }

  /** Run the generated reader. Each emitted offset is evaluated on the members read so far. */
  method ReadStruct(members: seq<Member>, region: MemoryRegion, offset: nat, junk: Byte) returns (r: Result<seq<Value>>)
    ensures r == ParseAll(members, region.data[..], offset)
    decreases members
  {
    hide *;
    var steps, size := WriteReadType(members);
    var obj: seq<Value> := [];
    NothingParsed(members, region.data[..], offset);
    for k := 0 to |steps|
      invariant |obj| == k && ParseAll(members[..k], region.data[..], offset) == Ok(obj)
    {
      ParsedShape(members, k, region.data[..], offset);
      OffsetIsSpan(members, k, obj);
      assert obj[..k] == obj;
      var at := Eval(steps[k].at, members, obj);
      var m := ReadMember(members[k].ty, region, offset + at, junk);
      ParseStep(members, k, region.data[..], offset);
      if !m.Ok? {
        return Failed(m);
      }
      obj := obj + [m.value];
    }
    assert members[..|members|] == members;
    return Ok(obj);
  }

  lemma NothingParsed(members: seq<Member>, data: seq<Byte>, offset: nat)
    ensures ParseAll(members[..0], data, offset) == Ok([])
  {
  }

  lemma ParsedShape(members: seq<Member>, k: nat, data: seq<Byte>, offset: nat)
    requires k <= |members| && ParseAll(members[..k], data, offset).Ok?
    ensures var obj := ParseAll(members[..k], data, offset).value;
            ShapeAll(members[..k], obj) && |obj| == k
  {
  }

  /** A failure to read one member is a failure to read them all. */
  lemma {:induction false} ParseStep(members: seq<Member>, k: nat, data: seq<Byte>, offset: nat)
    requires k < |members| && ParseAll(members[..k], data, offset).Ok?
    ensures var obj := ParseAll(members[..k], data, offset).value;
            var m := Parse(members[k].ty, data, offset + SpanAll(members[..k], obj));
            if m.Ok? then ParseAll(members[..k + 1], data, offset) == Ok(obj + [m.value])
            else ParseAll(members, data, offset) == Failed(m)
  {
    hide Parse, Span, SpanAll, Shape;
    assert members[..k + 1][..k] == members[..k];
    if !ParseAll(members[..k + 1], data, offset).Ok? {
      ParseFails(members, k + 1, data, offset);
    }
  }

  lemma {:induction false} ParseFails(members: seq<Member>, k: nat, data: seq<Byte>, offset: nat)
    requires k <= |members| && !ParseAll(members[..k], data, offset).Ok?
    ensures ParseAll(members, data, offset) == ParseAll(members[..k], data, offset)
    decreases |members|
  {
    if k == |members| {
      assert members[..k] == members;
    } else {
      var n := |members| - 1;
      assert members[..n][..k] == members[..k];
      ParseFails(members[..n], k, data, offset);
    }
  }

  method WriteScalar(ty: Type, v: Value, region: MemoryRegion, offset: nat) returns (ok: bool, ghost n: nat)
    requires !ty.Str? && !ty.Struct? && Valid(ty, v)
    modifies region.data
    ensures Wrote(old(region.data[..]), region.data[..], offset, Serialize(ty, v), ok, n)
  {
    hide *;
    ghost var before := region.data[..];
    var bytes: seq<Byte>;
    ScalarBytes(ty, v);
    match ty {
      case U24 =>
        ok := WriteU24(v.n, region, offset);
        RawWrote(before, region.data[..], offset, BigEndian(v.n, 3), ok);
        n := if ok then 3 else 0;
        return;
      case Raw(_) => bytes := v.bytes;
      case Boolean => bytes := [BoolByte(v.b)];
      case Integer(width, _) => bytes := BigEndian(ToUnsigned(v.n, width), width);
    }
    ok := region.WriteRaw(bytes, offset);
    RawWrote(before, region.data[..], offset, bytes, ok);
    n := if ok then |bytes| else 0;
  }

  lemma RawWrote(before: seq<Byte>, after: seq<Byte>, offset: nat, bytes: seq<Byte>, ok: bool)
    requires ok == (offset + |bytes| <= |before|)
    requires after == if ok then Stored(before, offset, bytes) else before
    ensures Wrote(before, after, offset, bytes, ok, if ok then |bytes| else 0)
  {
    assert bytes[..|bytes|] == bytes;
  }

  lemma ScalarBytes(ty: Type, v: Value)
    requires !ty.Str? && !ty.Struct? && Valid(ty, v)
    ensures match ty
            case Integer(width, _) =>
              v.Num? && ToUnsigned(v.n, width) >= 0 && Serialize(ty, v) == BigEndian(ToUnsigned(v.n, width), width)
            case Boolean => v.Flag? && Serialize(ty, v) == [BoolByte(v.b)]
            case U24 =>
              v.Num? && 0 <= v.n < 0x100_0000 && v.n % 0x100_0000 == v.n && Serialize(ty, v) == BigEndian(v.n, 3)
            case Raw(_) => v.Bytes? && Serialize(ty, v) == v.bytes
            case _ => true
  {
    if ty.U24? {
      assert Pow256(0) == 1 && Pow256(3) == 0x100_0000;
    }
    hide BigEndian;
  }

  method WriteString(s: seq<Byte>, region: MemoryRegion, offset: nat) returns (ok: bool, ghost n: nat)
    requires |s| < 255
    modifies region.data
    ensures Wrote(old(region.data[..]), region.data[..], offset, Serialize(Str, Bytes(s)), ok, n)
  {
    ghost var before := region.data[..];
    ok := region.WriteRaw([|s|], offset);
    if !ok {
      n := 0;
      return;
    }
    ghost var middle := region.data[..];
    ok := region.WriteRaw(s, offset + 1);
    n := if ok then |s| else 0;
    assert [|s| as Byte][..1] == [|s|] && s[..|s|] == s;
    WroteThen(before, middle, region.data[..], offset, [|s|], s, ok, n);
    n := n + 1;
  }

  method WriteMember(ty: Type, v: Value, region: MemoryRegion, offset: nat) returns (ok: bool, ghost n: nat)
    requires Valid(ty, v)
    modifies region.data
    ensures Wrote(old(region.data[..]), region.data[..], offset, Serialize(ty, v), ok, n)
    decreases ty
  {
    if ty.Str? {
      ok, n := WriteString(v.bytes, region, offset);
    } else if ty.Struct? {
      ok, n := WriteStruct(ty.members, v.fields, region, offset);
    } else {
      ok, n := WriteScalar(ty, v, region, offset);
    }
  }

  /** Run the generated writer. Nothing outside `[offset, offset + size())` changes, and it succeeds exactly when
      that fits the memory. */
  method WriteStruct(members: seq<Member>, values: seq<Value>, region: MemoryRegion, offset: nat)
    returns (ok: bool, ghost n: nat)
    requires ValidAll(members, values)
    modifies region.data
    ensures Wrote(old(region.data[..]), region.data[..], offset, SerializeAll(members, values), ok, n)
    decreases members
  {
    hide *;
    var steps := WriteWriteType(members);
    var totalOffset: nat := offset;
    ghost var before := region.data[..];
    n := 0;
    ok := true;
    NothingWrote(before, offset, members[..0], values[..0]);
    MembersValid(members, values);
    for k := 0 to |steps|
      invariant ok && ValidAll(members[..k], values[..k])
      invariant n == |SerializeAll(members[..k], values[..k])| == totalOffset - offset
      invariant Wrote(before, region.data[..], offset, SerializeAll(members[..k], values[..k]), true, n)
    {
      ghost var middle := region.data[..];
      ghost var m;
      ok, m := WriteMember(members[k].ty, values[k], region, totalOffset);
      SerializeStep(members, k, values);
      WroteThen(before, middle, region.data[..], offset, SerializeAll(members[..k], values[..k]),
                Serialize(members[k].ty, values[k]), ok, m);
      n := n + m;
      if !ok {
        ghost var rest := SerializeExtends(members, k + 1, values);
        WroteLess(before, region.data[..], offset, SerializeAll(members[..k + 1], values[..k + 1]), rest, n);
        return;
      }
      WroteAll(middle, region.data[..], totalOffset, Serialize(members[k].ty, values[k]), m);
      AdvancedIs(steps[k].advance, members[k].ty, values[k]);
      totalOffset := totalOffset + Advanced(steps[k].advance, members[k].ty, values[k]);
    }
    assert members[..|members|] == members && values[..|values|] == values;
  }

  lemma AdvancedIs(advance: Advance, ty: Type, v: Value)
    requires Shape(ty, v) && AdvancesBySpan(advance, ty)
    ensures (advance.OnePlusSize? ==> ty.Str?) && (advance.Size? ==> ty.Struct?)
    ensures Advanced(advance, ty, v) == Span(ty, v)
  {
  }

  lemma MembersValid(members: seq<Member>, values: seq<Value>)
    requires ValidAll(members, values)
    ensures |values| == |members|
    ensures forall i :: 0 <= i < |members| ==> Valid(members[i].ty, values[i]) && Shape(members[i].ty, values[i])
  {
  }

  lemma NothingWrote(data: seq<Byte>, offset: nat, members: seq<Member>, values: seq<Value>)
    requires members == [] && values == []
    ensures ValidAll(members, values) && SerializeAll(members, values) == [] && Wrote(data, data, offset, [], true, 0)
  {
  }

  lemma WroteAll(before: seq<Byte>, after: seq<Byte>, offset: nat, bytes: seq<Byte>, n: nat)
    requires Wrote(before, after, offset, bytes, true, n)
    ensures n == |bytes|
  {
  }

  lemma SerializeStep(members: seq<Member>, k: nat, values: seq<Value>)
    requires k < |members| && ValidAll(members, values)
    ensures ValidAll(members[..k], values[..k]) && ValidAll(members[..k + 1], values[..k + 1])
    ensures SerializeAll(members[..k + 1], values[..k + 1])
            == SerializeAll(members[..k], values[..k]) + Serialize(members[k].ty, values[k])
  {
    assert members[..k + 1][..k] == members[..k] && values[..k + 1][..k] == values[..k];
  }

  lemma {:induction false} SerializeExtends(members: seq<Member>, k: nat, values: seq<Value>) returns (rest: seq<Byte>)
    requires k <= |members| && ValidAll(members, values)
    ensures ValidAll(members[..k], values[..k])
    ensures SerializeAll(members, values) == SerializeAll(members[..k], values[..k]) + rest
    decreases |members|
  {
    hide *;
    MembersValid(members, values);
    if k == |members| {
      assert members[..k] == members && values[..k] == values;
      rest := [];
    } else {
      var n := |members| - 1;
      assert members[..n][..k] == members[..k] && values[..n][..k] == values[..k];
      assert members[..n + 1] == members && values[..n + 1] == values;
      SerializeStep(members, n, values);
      rest := SerializeExtends(members[..n], k, values[..n]);
      rest := rest + Serialize(members[n].ty, values[n]);
    }
  }

  // ---- Main results -----------------------------------------------------------------------------

  /** What the generated writer stored, the generated reader gives back; `size()` is what was written, and no other
      byte changed. */
  lemma ReaderInvertsWriter(members: seq<Member>, values: seq<Value>, before: seq<Byte>, after: seq<Byte>, offset: nat,
                            n: nat)
    requires ValidAll(members, values) && offset + |SerializeAll(members, values)| <= |before|
    requires Wrote(before, after, offset, SerializeAll(members, values), true, n)
    ensures ParseAll(members, after, offset) == Ok(values)
    ensures n == SizeOf(members, values)
    ensures forall i :: 0 <= i < |before| && !(offset <= i < offset + SizeOf(members, values)) ==> after[i] == before[i]
  {
    var s := SerializeAll(members, values);
    SizeIsSpan(members, values);
    assert s[..n] == s;
    assert HoldsAt(after, offset, s);
    ParseAllInverts(members, values, after, offset);
  }

  ghost predicate NoStrings(ty: Type)
    decreases ty
  {
    !ty.Str? && (ty.Struct? ==> NoStringsAll(ty.members))
  }

  ghost predicate NoStringsAll(members: seq<Member>)
    decreases members
  {
    forall i :: 0 <= i < |members| ==> NoStrings(members[i].ty)
  }

  /** Every string in the value is empty. */
  ghost predicate StringsEmpty(ty: Type, v: Value)
    requires Shape(ty, v)
    decreases ty
  {
    match ty
    case Str => v.bytes == []
    case Struct(members) => AllStringsEmpty(members, v.fields)
    case _ => true
  }

  ghost predicate AllStringsEmpty(members: seq<Member>, values: seq<Value>)
    requires ShapeAll(members, values)
    decreases members
  {
    forall i :: 0 <= i < |members| ==> StringsEmpty(members[i].ty, values[i])
  }

  /** The type checker's size is a lower bound, reached exactly when every string is empty. */
  lemma {:induction false} CheckedIsLeast(ty: Type, v: Value)
    requires Shape(ty, v)
    ensures CheckedSize(ty) <= Span(ty, v)
    ensures CheckedSize(ty) == Span(ty, v) <==> StringsEmpty(ty, v)
    decreases ty
  {
    if ty.Struct? {
      CheckedAllLeast(ty.members, v.fields);
    }
  }

  lemma {:induction false} CheckedAllLeast(members: seq<Member>, values: seq<Value>)
    requires ShapeAll(members, values)
    ensures CheckedSizes(members) <= SpanAll(members, values)
    ensures CheckedSizes(members) == SpanAll(members, values) <==> AllStringsEmpty(members, values)
    decreases members
  {
    if members != [] {
      var n := |members| - 1;
      CheckedAllLeast(members[..n], values[..n]);
      CheckedIsLeast(members[n].ty, values[n]);
      assert AllStringsEmpty(members, values) <==>
             AllStringsEmpty(members[..n], values[..n]) && StringsEmpty(members[n].ty, values[n]) by {
        if AllStringsEmpty(members[..n], values[..n]) && StringsEmpty(members[n].ty, values[n]) {
          forall i | 0 <= i < |members| ensures StringsEmpty(members[i].ty, values[i]) {
            assert i < n ==> members[..n][i] == members[i] && values[..n][i] == values[i];
          }
        }
        if AllStringsEmpty(members, values) {
          forall i | 0 <= i < n ensures StringsEmpty(members[..n][i].ty, values[..n][i]) {
            assert members[..n][i] == members[i] && values[..n][i] == values[i];
          }
        }
      }
    }
  }

  lemma {:induction false} NoStringsEmpty(ty: Type, v: Value)
    requires NoStrings(ty) && Shape(ty, v)
    ensures StringsEmpty(ty, v)
    decreases ty
  {
    if ty.Struct? {
      forall i | 0 <= i < |ty.members| ensures StringsEmpty(ty.members[i].ty, v.fields[i]) {
        NoStringsEmpty(ty.members[i].ty, v.fields[i]);
      }
    }
  }

  /** A value whose strings are not empty. */
  ghost function Sample(ty: Type): (v: Value)
    ensures Valid(ty, v)
    decreases ty
  {
    match ty
    case Integer(_, _) | U24 => Num(0)
    case Boolean => Flag(false)
    case Raw(count) => Bytes(seq(count, i => 0))
    case Str => Bytes([65])
    case Struct(members) => Fields(SampleAll(members))
  }

  ghost function SampleAll(members: seq<Member>): (values: seq<Value>)
    ensures ValidAll(members, values)
    ensures forall i :: 0 <= i < |members| ==> values[i] == Sample(members[i].ty)
    decreases members
  {
    if members == [] then [] else
      var n := |members| - 1;
      SampleAll(members[..n]) + [Sample(members[n].ty)]
  }

  lemma {:induction false} SampleFull(ty: Type)
    requires !NoStrings(ty)
    ensures !StringsEmpty(ty, Sample(ty))
    decreases ty
  {
    if ty.Struct? {
      var i :| 0 <= i < |ty.members| && !NoStrings(ty.members[i].ty);
      SampleFull(ty.members[i].ty);
    }
  }

  /** The emitted `fixed_size` is the size of every object exactly when no member, however deep, is a string. The
      type checker only looks for strings among the members themselves. */
  lemma FixedSizeIsSize(members: seq<Member>)
    ensures NoStringsAll(members) <==>
            forall values :: ValidAll(members, values) ==> SizeOf(members, values) == CheckedSizes(members)
  {
    var ty := Struct(members);
    if NoStrings(ty) {
      forall values | ValidAll(members, values) ensures SizeOf(members, values) == CheckedSizes(members) {
        NoStringsEmpty(ty, Fields(values));
        CheckedAllLeast(members, values);
        SizeIsSpan(members, values);
      }
    } else {
      SampleFull(ty);
      var values := SampleAll(members);
      CheckedAllLeast(members, values);
      SizeIsSpan(members, values);
    }
  }

  /** A struct the type checker takes for fixed although its one member holds a string. */
  lemma NestedStringIsMissed()
    ensures var name := Member("name", Str);
            var record := [Member("entry", Struct([name]))];
            && (forall k :: 0 <= k < |record| ==> !record[k].ty.Str?)
            && ShapeAll(record, [Fields([Bytes([65])])])
            && CheckedSizes(record) == 1 && SizeOf(record, [Fields([Bytes([65])])]) == 2
  {
    hide *;
    var record, outer := [Member("entry", Struct([Member("name", Str)]))], [Fields([Bytes([65])])];
    NestedSpan();
    SizeIsSpan(record, outer);
  }

  lemma NestedSpan()
    ensures var name := Member("name", Str);
            var record, outer := [Member("entry", Struct([name]))], [Fields([Bytes([65])])];
            ShapeAll(record, outer) && CheckedSizes(record) == 1 && SpanAll(record, outer) == 2
  {
    hide OffsetAt, SizeOf;
    var name := Member("name", Str);
    var inner := [Bytes([65])];
    NestedOne(name, inner[0]);
    NestedOne(Member("entry", Struct([name])), Fields(inner));
  }

  /** A struct of one member. */
  lemma NestedOne(m: Member, v: Value)
    requires Shape(m.ty, v)
    ensures ShapeAll([m], [v]) && SpanAll([m], [v]) == Span(m.ty, v) && CheckedSizes([m]) == CheckedSize(m.ty)
  {
    hide Shape, Span, CheckedSize;
    assert [m][..0] == [] && [v][..0] == [];
    assert SpanAll([m][..0], [v][..0]) == 0 && CheckedSizes([m][..0]) == 0;
  }

  /** The table's offset of member `k` is the reader's exactly when the strings before it are empty. */
  lemma TableMatchesReader(members: seq<Member>, k: nat, values: seq<Value>)
    requires k <= |members| && ShapeAll(members, values)
    ensures TermsFit(OffsetAt(members, k).terms, members, values) && ShapeAll(members[..k], values[..k])
    ensures CheckedSizes(members[..k]) == Eval(OffsetAt(members, k), members, values)
            <==> AllStringsEmpty(members[..k], values[..k])
  {
    assert members[..|values|] == members;
    OffsetIsSpan(members, k, values);
    CheckedAllLeast(members[..k], values[..k]);
  }

  /** A path of two fields leads to the member of the member. */
  lemma NestedField(members: seq<Member>, k: nat, inner: seq<Member>, j: nat, data: seq<Byte>, offset: nat)
    requires k < |members| && members[k].ty == Struct(inner) && j < |inner|
    requires NoStringsAll(members) && ParseAll(members, data, offset).Ok?
    ensures var values := ParseAll(members, data, offset).value;
            var outer := Field(CheckedSizes(members[..k]), CheckedSize(members[k].ty));
            var field := outer.Plus(Field(CheckedSizes(inner[..j]), CheckedSize(inner[j].ty)));
            && values[k].Fields? && j < |values[k].fields|
            && Parse(inner[j].ty, data, offset + field.offset) == Ok(values[k].fields[j])
            && field.size == Span(inner[j].ty, values[k].fields[j])
  {
    var values := ParseAll(members, data, offset).value;
    MemberAt(members, k, data, offset);
    InnerAt(inner, j, data, offset + CheckedSizes(members[..k]), values[k]);
    assert NoStrings(members[k].ty);
    hide Parse, ParseAll, Span, Shape, CheckedSize, CheckedSizes;
  }

  lemma InnerAt(inner: seq<Member>, j: nat, data: seq<Byte>, offset: nat, v: Value)
    requires j < |inner| && NoStringsAll(inner) && Parse(Struct(inner), data, offset) == Ok(v)
    ensures v.Fields? && j < |v.fields| && Shape(inner[j].ty, v.fields[j])
    ensures Parse(inner[j].ty, data, offset + CheckedSizes(inner[..j])) == Ok(v.fields[j])
    ensures CheckedSize(inner[j].ty) == Span(inner[j].ty, v.fields[j])
  {
    MemberAt(inner, j, data, offset);
    NoStringsEmpty(inner[j].ty, v.fields[j]);
    CheckedIsLeast(inner[j].ty, v.fields[j]);
  }

  /** Without strings, each member is where the table says. */
  lemma {:induction false} MemberAt(members: seq<Member>, k: nat, data: seq<Byte>, offset: nat)
    requires k < |members| && NoStringsAll(members) && ParseAll(members, data, offset).Ok?
    ensures Parse(members[k].ty, data, offset + CheckedSizes(members[..k]))
            == Ok(ParseAll(members, data, offset).value[k])
    decreases |members|
  {
    hide *;
    var n := |members| - 1;
    NoStringsInit(members);
    ParseInit(members, data, offset);
    var before := ParseAll(members[..n], data, offset).value;
    if k == n {
      FixedSpan(members[..n], before);
    } else {
      assert members[..n][..k] == members[..k];
      MemberAt(members[..n], k, data, offset);
      assert before[k] == ParseAll(members, data, offset).value[..n][k];
    }
  }

  lemma NoStringsInit(members: seq<Member>)
    requires NoStringsAll(members) && members != []
    ensures NoStringsAll(members[..|members| - 1])
  {
  }

  lemma FixedSpan(members: seq<Member>, values: seq<Value>)
    requires NoStringsAll(members) && ShapeAll(members, values)
    ensures SpanAll(members, values) == CheckedSizes(members)
  {
    NoStringsEmpty(Struct(members), Fields(values));
    CheckedAllLeast(members, values);
  }

  lemma ParseInit(members: seq<Member>, data: seq<Byte>, offset: nat)
    requires members != [] && ParseAll(members, data, offset).Ok?
    ensures var n := |members| - 1;
            var before := ParseAll(members[..n], data, offset);
            && before.Ok?
            && Parse(members[n].ty, data, offset + SpanAll(members[..n], before.value))
               == Ok(ParseAll(members, data, offset).value[n])
            && ParseAll(members, data, offset).value[..n] == before.value
            && |before.value| == n && |ParseAll(members, data, offset).value| == n + 1
  {
    hide Parse, SpanAll, Shape;
  }
}
