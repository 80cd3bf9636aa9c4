/** nanopb's field iterator: a position that walks round and round a descriptor table. */
module PbCommon {

  datatype AType = Static | Pointer | Callback
  datatype HType = Required | Optional | Repeated | OneOf

  const PB_SIZE_MAX: nat := 0xffff
  const POINTER_SIZE: nat := 8

  /** One row of a pb_field_t table. */
  datatype Row = Row(
    tag: nat, atype: AType, htype: HType, extension: bool,
    dataOffset: nat, sizeOffset: int, dataSize: nat, arraySize: nat)

  /** Only rows before the terminator have nonzero tags; the terminator ends the table. */
  ghost predicate IsTable(rows: seq<Row>) {
    && rows != [] && rows[|rows| - 1].tag == 0
    && forall i :: 0 <= i < |rows| - 1 ==> rows[i].tag != 0
  }

  // ------------------------------------------------------- what a position determines

  predicate SameUnion(prev: Row, next: Row) {
    prev.htype == OneOf && next.htype == OneOf && next.dataOffset == PB_SIZE_MAX
  }

  /** Room that a row takes up in the message structure. */
  function RoomOf(r: Row): nat {
    if r.atype == Static && r.htype == Repeated then r.dataSize * r.arraySize
    else if r.atype == Pointer then POINTER_SIZE
    else r.dataSize
  }

  /** The address of the data of row `i`, walking from the start of the structure. */
  function DataAt(rows: seq<Row>, dest: nat, i: nat): nat
    requires i < |rows|
  {
    if i == 0 then dest + rows[0].dataOffset
    else if SameUnion(rows[i - 1], rows[i]) then DataAt(rows, dest, i - 1)
    else DataAt(rows, dest, i - 1) + RoomOf(rows[i - 1]) + rows[i].dataOffset
  }

  /** The address of its size or presence field. */
  function SizeAt(rows: seq<Row>, dest: nat, i: nat): int
    requires i < |rows|
  {
    if i > 0 && SameUnion(rows[i - 1], rows[i]) then SizeAt(rows, dest, i - 1)
    else DataAt(rows, dest, i) + rows[i].sizeOffset
  }

  /** The number of required rows before row `i`. */
  function RequiredBefore(rows: seq<Row>, i: nat): nat
    requires i <= |rows|
  {
    if i == 0 then 0 else RequiredBefore(rows, i - 1) + (if rows[i - 1].htype == Required then 1 else 0)
  }

  // ---------------------------------------------------------------- the iterator

  class FieldIter {
    const start: seq<Row>
    const destStruct: nat
    var pos: nat
    var requiredFieldIndex: nat
    var pData: nat
    var pSize: int

    /** Everything the iterator holds is determined by its position. */
    ghost predicate Valid()
      reads this
    {
      && IsTable(start)
      && (pos < |start| - 1 || (pos == 0 && |start| == 1))
      && pData == DataAt(start, destStruct, pos)
      && pSize == SizeAt(start, destStruct, pos)
      && requiredFieldIndex == RequiredBefore(start, pos)
    }

    constructor (start: seq<Row>, destStruct: nat)
      requires IsTable(start)
      ensures Valid() && pos == 0 && this.start == start && this.destStruct == destStruct
    {
      this.start, this.destStruct := start, destStruct;
      pos, requiredFieldIndex := 0, 0;
      pData := destStruct + start[0].dataOffset;
      pSize := destStruct + start[0].dataOffset + start[0].sizeOffset;
    }

    /** pb_field_iter_begin. */
    method Begin() returns (ok: bool)
      requires IsTable(start)
      modifies this
      ensures Valid() && pos == 0 && (ok <==> |start| > 1)
    {
      pos, requiredFieldIndex := 0, 0;
      pData := destStruct + start[pos].dataOffset;
      pSize := pData + start[pos].sizeOffset;
      ok := start[pos].tag != 0;
    }

    /** The next position: the terminator is never stopped at, it wraps to the start. */
    ghost function NextPos(): nat
      reads this
    {
      if pos + 1 < |start| - 1 then pos + 1 else 0
    }

    /** pb_field_iter_next. */
    method Next() returns (more: bool)
      requires Valid()
      modifies this
      ensures Valid() && pos == old(NextPos()) && (more <==> old(pos) + 1 < |start| - 1)
    {
      var prev := start[pos];
      if prev.tag == 0 {
        return false;
      }
      pos := pos + 1;
      var cur := start[pos];
      if cur.tag == 0 {
        var _ := Begin();
        return false;
      } else {
        var prevSize := prev.dataSize;
        if SameUnion(prev, cur) {
          return true;
        } else if prev.atype == Static && prev.htype == Repeated {
          prevSize := prevSize * prev.arraySize;
        } else if prev.atype == Pointer {
          prevSize := POINTER_SIZE;
        }
        if prev.htype == Required {
          requiredFieldIndex := requiredFieldIndex + 1;
        }
        pData := pData + prevSize + cur.dataOffset;
        pSize := pData + cur.sizeOffset;
        return true;
      }
    }

    /** How many steps from `origin` to the current position, going round. */
    ghost function Lap(origin: nat): int
      reads this
    {
      if pos >= origin then pos - origin else pos - origin + |start| - 1
    }

    /** pb_field_iter_find: from any position, at most one lap; it succeeds exactly if some
        row that is not an extension placeholder has the tag, and it stops there.  Tag zero
        is found only in an empty table, whose terminator is the one row there is. */
    method Find(tag: nat) returns (found: bool)
      requires Valid()
      modifies this
      ensures Valid()
      ensures found ==> start[pos].tag == tag && !start[pos].extension
      ensures tag != 0 ==> (found <==> exists i :: 0 <= i < |start| - 1 && start[i].tag == tag && !start[i].extension)
      ensures tag == 0 ==> (found <==> |start| == 1 && !start[0].extension)
      ensures !found ==> pos == old(pos)
    {
      var origin := pos;
      ghost var steps := 0;
      while true
        invariant Valid() && steps == Lap(origin)
        invariant steps == 0 ==> pos == origin
        invariant forall k: nat :: k < steps ==> !Wanted(start, RoundFrom(origin, k, |start|), tag)
        decreases |start| - steps
      {
        if start[pos].tag == tag && !start[pos].extension {
          return true;
        }
        ghost var before := pos;
        assert before == RoundFrom(origin, steps, |start|);
        var _ := Next();
        if pos == origin {
          NothingOnTheLap(start, origin, tag, steps);
          return false;
        }
        steps := steps + 1;
      }
    }
  }

  ghost predicate Wanted(rows: seq<Row>, i: nat, tag: nat) {
    i < |rows| && rows[i].tag == tag && !rows[i].extension
  }

  /** The position `k` steps round from `origin` in a table of `n` rows. */
  ghost function RoundFrom(origin: nat, k: nat, n: nat): nat {
    if n > 1 && origin + k >= n - 1 then origin + k - (n - 1) else origin + k
  }

  lemma NothingOnTheLap(rows: seq<Row>, origin: nat, tag: nat, steps: nat)
    requires IsTable(rows)
    requires forall k: nat :: k <= steps ==> !Wanted(rows, RoundFrom(origin, k, |rows|), tag)
    requires |rows| == 1 || (origin < |rows| - 1 && steps == |rows| - 2)
    ensures forall i :: 0 <= i < |rows| - 1 ==> !(rows[i].tag == tag && !rows[i].extension)
  {
    forall i: nat | i < |rows| - 1
      ensures !(rows[i].tag == tag && !rows[i].extension)
    {
      var k: nat := if i >= origin then i - origin else i - origin + |rows| - 1;
      assert RoundFrom(origin, k, |rows|) == i;
      assert !Wanted(rows, i, tag);
    }
  }

  // ---------------------------------------------------------------- the structure behind a table

  /** A member of the message structure: where it is, its size, and where its presence or
      count field is. */
  datatype Member = Member(offset: nat, size: nat, sizeField: int)

  /** The macros of a row take these from the member: for an array its items, for a pointer
      the size of what it points to. */
  ghost predicate Describes(r: Row, m: Member) {
    && r.sizeOffset == m.sizeField - m.offset
    && match (r.atype, r.htype)
       case (Static, Repeated) => m.size == r.arraySize * r.dataSize
       case (Pointer, _) => m.size == 8
       case _ => m.size == r.dataSize
  }

  /** Rows in the order of their members: a row says how far its member is from the end of
      the one before, or that the two share their place in a union. */
  ghost predicate Laid(rows: seq<Row>, members: seq<Member>) {
    && |rows| == |members| + 1
    && (forall i :: 0 <= i < |members| ==> Describes(rows[i], members[i]))
    && (members != [] ==> rows[0].dataOffset == members[0].offset)
    && forall i, j :: 0 <= i && j == i + 1 < |members| ==> NextIn(rows[i], rows[j], members[i], members[j])
  }

  ghost predicate NextIn(r: Row, r': Row, m: Member, m': Member) {
    if r.htype == OneOf && r'.htype == OneOf && r'.dataOffset == 0xffff then m'.offset == m.offset && m'.sizeField == m.sizeField
    else m'.offset == m.offset + m.size + r'.dataOffset
  }

  /** The iterator comes to every member at its address, and at that of its presence field. */
  lemma {:induction false} AddressOfMember(rows: seq<Row>, members: seq<Member>, dest: nat, i: nat)
    requires Laid(rows, members) && i < |members|
    ensures DataAt(rows, dest, i) == dest + members[i].offset && SizeAt(rows, dest, i) == dest + members[i].sizeField
    decreases i
  {
    assert Describes(rows[i], members[i]);
    if i > 0 {
      var h := i - 1;
      AddressOfMember(rows, members, dest, h);
      assert Describes(rows[h], members[h]) && NextIn(rows[h], rows[i], members[h], members[i]);
      assert rows[h].dataSize * rows[h].arraySize == rows[h].arraySize * rows[h].dataSize;
    }
  }
}
