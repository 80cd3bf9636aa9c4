/** What decoding gives on any bytes at all: a message that fits its descriptor, with one
    member at most of each union, and each record felt only where it belongs. */
module PbTyping {
  import opened DbFormat
  import opened PbMessage
  import opened PbWire

  // ---------------------------------------------------------------- messages that fit

  /** As well-typed as decoding can promise: strings are empty or have room for their NUL,
      and a fixed-count array that never occurred is empty. */
  ghost predicate Fits(t: LType, v: Datum)
    decreases t
  {
    match t
    case Str(capacity) => v.Raw? && 0 !in v.data && (v.data != [] ==> |v.data| + 1 <= capacity)
    case Submessage(sub) => v.Msg? && SlotsFit(sub, v.slots)
    case _ => ValueOk(t, v)
  }

  ghost predicate SlotFits(f: Field, s: Slot)
    decreases f
  {
    match f.presence
    case Required => s.Single? && Fits(f.ltype, s.v)
    case Implicit => s.Single? && Fits(f.ltype, s.v)
    case Optional => s.Maybe? && (s.o.Some? ==> Fits(f.ltype, s.o.value))
    case OneOf(_) => s.Maybe? && (s.o.Some? ==> Fits(f.ltype, s.o.value))
    case Repeated(max) => s.Many? && |s.vs| <= max && forall k :: 0 <= k < |s.vs| ==> Fits(f.ltype, s.vs[k])
    case FixedCount(count) => s.Many? && (|s.vs| == count || s.vs == []) && forall k :: 0 <= k < |s.vs| ==> Fits(f.ltype, s.vs[k])
  }

  ghost predicate AllFit(t: LType, vs: seq<Datum>) {
    forall k :: 0 <= k < |vs| ==> Fits(t, vs[k])
  }

  /** Of two fields of one union one is not there. */
  ghost predicate OnePerUnion(d: Desc, slots: seq<Slot>)
    requires |slots| == |d.fields|
  {
    forall i, j :: 0 <= i < j < |slots| && SameUnion(d.fields[i], d.fields[j]) ==> slots[i] == Maybe(None) || slots[j] == Maybe(None)
  }

  ghost predicate SlotsFit(d: Desc, slots: seq<Slot>)
    decreases d
  {
    && |slots| == |d.fields|
    && (forall i :: 0 <= i < |slots| ==> SlotFits(d.fields[i], slots[i]))
    && OnePerUnion(d, slots)
  }

  /** In the middle of a message the fixed-count array being read may be in part there. */
  ghost predicate LoopFits(d: Desc, st: Loop) {
    && |st.slots| == |d.fields|
    && (forall i :: 0 <= i < |st.slots| && st.fixedField != Some(i) ==> SlotFits(d.fields[i], st.slots[i]))
    && (st.fixedField.Some? ==> Begun(d, st, st.fixedField.value))
    && OnePerUnion(d, st.slots)
  }

  ghost predicate Begun(d: Desc, st: Loop, i: nat)
    requires |st.slots| == |d.fields|
  {
    && i < |d.fields| && d.fields[i].presence.FixedCount? && st.slots[i].Many?
    && |st.slots[i].vs| == st.fixedSize <= d.fields[i].presence.count && AllFit(d.fields[i].ltype, st.slots[i].vs)
  }

  /** A well-typed message fits. */
  lemma {:induction false} ValueOkFits(t: LType, v: Datum)
    requires ValueOk(t, v)
    ensures Fits(t, v)
    decreases t, 1
  {
    if t.Submessage? {
      SlotsOkFit(t.sub, v.slots);
    }
  }

  lemma {:induction false} SlotsOkFit(d: Desc, slots: seq<Slot>)
    requires SlotsOk(d, slots)
    ensures SlotsFit(d, slots)
    decreases d, 0
  {
    forall i | 0 <= i < |slots|
      ensures SlotFits(d.fields[i], slots[i])
    {
      var f, s := d.fields[i], slots[i];
      assert SlotOk(f, s);
      if s.Single? {
        ValueOkFits(f.ltype, s.v);
      } else if s.Maybe? {
        if s.o.Some? {
          ValueOkFits(f.ltype, s.o.value);
        }
      } else {
        forall k | 0 <= k < |s.vs|
          ensures Fits(f.ltype, s.vs[k])
        {
          ValueOkFits(f.ltype, s.vs[k]);
        }
      }
    }
  }

  lemma {:induction false} DefaultFits(t: LType)
    ensures Fits(t, DefaultValue(t))
    decreases t, 1
  {
    if t.Submessage? {
      DefaultsFit(t.sub);
    }
  }

  lemma {:induction false} DefaultsFit(d: Desc)
    ensures SlotsFit(d, Defaults(d))
    decreases d, 0
  {
    forall i | 0 <= i < |d.fields|
      ensures SlotFits(d.fields[i], Defaults(d)[i])
    {
      DefaultFits(d.fields[i].ltype);
    }
  }

  // ---------------------------------------------------------------- scalars

  /** Whatever the bytes, a scalar read fits its type. */
  lemma ScalarFits(t: LType, s: Bytes, v: Datum, rest: Bytes)
    requires !t.Submessage? && DecodeScalar(t, s) == Some((v, rest))
    ensures Fits(t, v)
  {
    hide Varint32, Varint64, Substream;
    if t.Str? {
      StringPart(Substream(s).value.0);
    }
  }

  /** A string is what stands before the first NUL. */
  lemma {:induction false} StringPart(s: Bytes)
    ensures UpToNul(s) <= s && 0 !in UpToNul(s)
    ensures |UpToNul(s)| < |s| ==> s[|UpToNul(s)|] == 0
    decreases |s|
  {
    if s != [] && s[0] != 0 {
      StringPart(s[1..]);
      assert s == [s[0]] + s[1..];
    }
  }

  /** `n` and `v` are the same word of `k` bytes. */
  ghost predicate SameWord(n: int, v: int, k: nat) {
    exists q: int :: Apart(n, v, q, k)
  }

  predicate Apart(n: int, v: int, q: int, k: nat) {
    n == v + q * Modulus(k)
  }

  /** A signed value is read exactly if it fits its field, and it is the same word of 64
      bits as was written, or of 32 bits for fields that are no wider. */
  lemma CastIs(n: nat, size: nat, v: int)
    requires SizeOk(size) && n < Modulus(8)
    ensures CastSigned(n, size) == Some(v) <==> Signed(v, size) && SameWord(n, v, if size == 8 then 8 else 4)
  {
    var k := if size == 8 then 8 else 4;
    var w := AsSigned(n, k);
    assert CastSigned(n, size) == if Signed(w, size) then Some(w) else None;
    WordClass(n, k);
    hide AsSigned;
    if Signed(v, size) && SameWord(n, v, k) {
      OneOfWord(n, v, w, k);
    }
  }

  lemma WordClass(n: nat, k: nat)
    requires k == 4 || k == 8
    ensures SameWord(n, AsSigned(n, k), k) && Signed(AsSigned(n, k), k)
  {
    var q := n / Modulus(k);
    var w := AsSigned(n, k);
    assert Apart(n, w, q, k) || Apart(n, w, q + 1, k);
  }

  lemma OneOfWord(n: int, v: int, w: int, k: nat)
    requires (k == 4 || k == 8) && Signed(v, k) && Signed(w, k) && SameWord(n, v, k) && SameWord(n, w, k)
    ensures v == w
  {
    var q :| Apart(n, v, q, k);
    var p :| Apart(n, w, p, k);
    assert v - w == (p - q) * Modulus(k);
  }

  /** Zig-zag numbering leaves no word out. */
  lemma ZigZagOnto(n: nat)
    requires n < Modulus(8)
    ensures Signed(UnZigZag(n), 8) && ZigZag(UnZigZag(n)) == n
  {
  }

  lemma {:induction false} PackedFits(t: LType, s: Bytes, vs: seq<Datum>, max: nat, r: seq<Datum>)
    requires !t.Submessage? && DecodePacked(t, s, vs, max) == Some(r) && |vs| <= max && AllFit(t, vs)
    ensures |r| <= max && AllFit(t, r)
    decreases |s|
  {
    hide DecodeScalar;
    if s != [] {
      var (v, rest) := DecodeScalar(t, s).value;
      ScalarFits(t, s, v, rest);
      PackedFits(t, rest, vs + [v], max, r);
    }
  }

  // ---------------------------------------------------------------- messages

  lemma {:induction false} ValueFits(t: LType, prev: Datum, s: Bytes, v: Datum, rest: Bytes)
    requires Fits(t, prev) && DecodeValue(t, prev, s) == Some((v, rest))
    ensures Fits(t, v)
    decreases t, 0
  {
    hide Substream, DecodeScalar, DecodeMessage;
    if t.Submessage? {
      var inner := Substream(s).value.0;
      MessageFits(t.sub, inner, prev.slots, v.slots);
    } else {
      ScalarFits(t, s, v, rest);
    }
  }

  lemma {:induction false} ArrayFits(f: Field, wire: nat, s: Bytes, vs: seq<Datum>, max: nat, r: seq<Datum>, rest: Bytes)
    requires DecodeArray(f, wire, s, vs, max) == Some((r, rest)) && |vs| <= max && AllFit(f.ltype, vs)
    ensures |r| <= max && AllFit(f.ltype, r)
    decreases f, 1
  {
    hide Substream, DecodePacked, DecodeValue;
    if wire == PB_WT_STRING && Packable(f.ltype) {
      PackedFits(f.ltype, Substream(s).value.0, vs, max, r);
    } else {
      var v := DecodeValue(f.ltype, DefaultValue(f.ltype), s).value.0;
      DefaultFits(f.ltype);
      ValueFits(f.ltype, DefaultValue(f.ltype), s, v, rest);
    }
  }

  /** What a record of field `i` does to the slots: its own is filled in, the others of its
      union are emptied, and nothing else changes. */
  lemma RecordChanges(d: Desc, i: nat, wire: nat, s: Bytes, st: Loop, st': Loop, rest: Bytes)
    requires i < |d.fields| == |st.slots| && DecodeField(d, i, wire, s, st) == Some((st', rest))
    ensures |st'.slots| == |st.slots|
    ensures forall j :: 0 <= j < |st.slots| && j != i && !SameUnion(d.fields[i], d.fields[j]) ==> st'.slots[j] == st.slots[j]
    ensures forall j :: 0 <= j < |st.slots| && j != i && SameUnion(d.fields[i], d.fields[j]) ==> st'.slots[j] == Maybe(None)
    ensures d.fields[i].presence.OneOf? ==> st'.slots[i].Maybe? && st'.slots[i].o.Some?
    ensures d.fields[i].presence.Optional? ==> st'.slots[i].Maybe? && st'.slots[i].o.Some?
  {
    hide DecodeValue, DecodeArray, FixedDone;
  }

  lemma {:induction false} FieldFits(d: Desc, i: nat, wire: nat, s: Bytes, st: Loop, st': Loop, rest: Bytes)
    requires LoopFits(d, st) && i < |d.fields| && DecodeField(d, i, wire, s, st) == Some((st', rest))
    ensures LoopFits(d, st')
    decreases d.fields[i], 3
  {
    hide DecodeValue, DecodeArray, Fits;
    var f := d.fields[i];
    var st1 := Prepare(d, i, st).value;
    RecordChanges(d, i, wire, s, st, st', rest);
    if f.presence.Repeated? || f.presence.FixedCount? {
      var max := if f.presence.Repeated? then f.presence.max else f.presence.count;
      var vs := ItemsOf(st1.slots[i]);
      assert |vs| <= max && AllFit(f.ltype, vs);
      ArrayFits(f, wire, s, vs, max, st'.slots[i].vs, rest);
    } else {
      var prev := PrevOf(f, st1.slots[i]);
      DefaultFits(f.ltype);
      var v := DecodeValue(f.ltype, prev, s).value.0;
      ValueFits(f.ltype, prev, s, v, rest);
    }
  }

  lemma {:induction false} LoopKeepsFit(d: Desc, s: Bytes, st: Loop, r: Loop)
    requires LoopFits(d, st) && DecodeLoop(d, s, st) == Some(r)
    ensures LoopFits(d, r)
    decreases d, 0, |s|
  {
    assert |st.slots| == |d.fields|;
    hide Varint32, Skip, DecodeField, FindField, LoopFits;
    if s != [] {
      var (key, rest) := Varint32(s).value;
      if key != 0 {
        match FindField(d, key / 8, 0)
        case None =>
          if d.fields == [] && key / 8 == 0 {
            SeenOnly(d, st, {0});
            LoopKeepsFit(d, Varint32(rest).value.1, st.(seen := st.seen + {0}), r);
          } else {
            LoopKeepsFit(d, Skip(key % 8, rest).value, st, r);
          }
        case Some(i) =>
          var (st', rest') := DecodeField(d, i, key % 8, rest, st).value;
          FieldFits(d, i, key % 8, rest, st, st', rest');
          LoopKeepsFit(d, rest', st', r);
      }
    }
  }

  lemma SeenOnly(d: Desc, st: Loop, more: set<int>)
    requires LoopFits(d, st)
    ensures LoopFits(d, st.(seen := st.seen + more))
  {
  }

  /** Decoding any bytes into a message that fits gives one that fits: values in range,
      arrays within their sizes, fixed-count arrays whole, and of each union one member at
      most, at every depth. */
  lemma {:induction false} MessageFits(d: Desc, s: Bytes, slots: seq<Slot>, r: seq<Slot>)
    requires SlotsFit(d, slots) && DecodeMessage(d, s, slots) == Some(r)
    ensures SlotsFit(d, r)
    decreases d, 1
  {
    hide DecodeLoop;
    var st := DecodeLoop(d, s, Loop(slots, {}, None, 0)).value;
    LoopKeepsFit(d, s, Loop(slots, {}, None, 0), st);
  }

  /** In particular for pb_decode, which starts from the defaults. */
  lemma DecodedFits(d: Desc, s: Bytes)
    ensures Decode(d, s).Some? ==> SlotsFit(d, Decode(d, s).value)
  {
    if Decode(d, s).Some? {
      DefaultsFit(d);
      MessageFits(d, s, Defaults(d), Decode(d, s).value);
    }
  }

  // ---------------------------------------------------------------- unions, whatever the slots hold

  lemma OneMore(d: Desc, i: nat, wire: nat, s: Bytes, st: Loop, st': Loop, rest: Bytes)
    requires i < |d.fields| == |st.slots| && OnePerUnion(d, st.slots) && DecodeField(d, i, wire, s, st) == Some((st', rest))
    ensures OnePerUnion(d, st'.slots)
  {
    hide DecodeField;
    RecordChanges(d, i, wire, s, st, st', rest);
  }

  lemma {:induction false} LoopKeepsOne(d: Desc, s: Bytes, st: Loop, r: Loop)
    requires |st.slots| == |d.fields| && OnePerUnion(d, st.slots) && DecodeLoop(d, s, st) == Some(r)
    ensures OnePerUnion(d, r.slots)
    decreases |s|
  {
    hide Varint32, Skip, DecodeField, FindField, OnePerUnion;
    if s != [] {
      var (key, rest) := Varint32(s).value;
      if key != 0 {
        match FindField(d, key / 8, 0)
        case None =>
          if d.fields == [] && key / 8 == 0 {
            LoopKeepsOne(d, Varint32(rest).value.1, st.(seen := st.seen + {0}), r);
          } else {
            LoopKeepsOne(d, Skip(key % 8, rest).value, st, r);
          }
        case Some(i) =>
          var (st', rest') := DecodeField(d, i, key % 8, rest, st).value;
          OneMore(d, i, key % 8, rest, st, st', rest');
          LoopKeepsOne(d, rest', st', r);
      }
    }
  }

  /** Whatever the bytes and whatever else the slots hold: if one member at most of each
      union is there before decoding, so it is after it. */
  lemma OnePerUnionKept(d: Desc, s: Bytes, slots: seq<Slot>, r: seq<Slot>)
    requires |slots| == |d.fields| && OnePerUnion(d, slots) && DecodeMessage(d, s, slots) == Some(r)
    ensures OnePerUnion(d, r)
  {
    hide DecodeLoop, OnePerUnion;
    var start := Loop(slots, {}, None, 0);
    LoopKeepsOne(d, s, start, DecodeLoop(d, s, start).value);
  }

  // ---------------------------------------------------------------- required fields

  /** One of the records that the loop meets is of field `i`. */
  ghost predicate Meets(d: Desc, s: Bytes, st: Loop, i: nat)
    requires |st.slots| == |d.fields| && DecodeLoop(d, s, st).Some?
    decreases |s|
  {
    s != [] && Varint32(s).value.0 != 0 && MeetsNext(d, s, st, i)
  }

  ghost predicate MeetsNext(d: Desc, s: Bytes, st: Loop, i: nat)
    requires |st.slots| == |d.fields| && DecodeLoop(d, s, st).Some? && s != [] && Varint32(s).value.0 != 0
    decreases |s|, 0
  {
    var (key, rest) := Varint32(s).value;
    match FindField(d, key / 8, 0)
    case None =>
      if d.fields == [] && key / 8 == 0 then Meets(d, Varint32(rest).value.1, st.(seen := st.seen + {0}), i)
      else Meets(d, Skip(key % 8, rest).value, st, i)
    case Some(j) =>
      var (st', rest') := DecodeField(d, j, key % 8, rest, st).value;
      i == j || Meets(d, rest', st', i)
  }

  /** Two required fields never share an index. */
  lemma {:induction false} IndexGrows(d: Desc, i: nat, j: nat)
    requires i < j <= |d.fields| && d.fields[i].presence.Required?
    ensures RequiredBefore(d, i) < RequiredBefore(d, j)
    decreases j
  {
    if i < j - 1 {
      IndexGrows(d, i, j - 1);
    }
  }

  lemma NotesSeen(d: Desc, j: nat, wire: nat, s: Bytes, st: Loop, st': Loop, rest: Bytes, i: nat)
    requires j < |d.fields| == |st.slots| && DecodeField(d, j, wire, s, st) == Some((st', rest))
    requires i < |d.fields| && d.fields[i].presence.Required? && RequiredBefore(d, i) < 64
    ensures RequiredBefore(d, i) in st'.seen <==> RequiredBefore(d, i) in st.seen || i == j
  {
    hide StaticField, RequiredBefore;
    if d.fields[j].presence.Required? && i != j {
      if i < j {
        IndexGrows(d, i, j);
      } else {
        IndexGrows(d, j, i);
      }
    }
  }

  lemma {:induction false} SeenIsMet(d: Desc, s: Bytes, st: Loop, i: nat)
    requires |st.slots| == |d.fields| && DecodeLoop(d, s, st).Some?
    requires i < |d.fields| && d.fields[i].presence.Required? && RequiredBefore(d, i) < 64
    ensures RequiredBefore(d, i) in DecodeLoop(d, s, st).value.seen <==> RequiredBefore(d, i) in st.seen || Meets(d, s, st, i)
    decreases |s|
  {
    hide Varint32, Skip, DecodeField, FindField, RequiredBefore;
    if s != [] {
      var (key, rest) := Varint32(s).value;
      if key != 0 {
        match FindField(d, key / 8, 0)
        case None => SeenIsMet(d, Skip(key % 8, rest).value, st, i);
        case Some(j) =>
          var (st', rest') := DecodeField(d, j, key % 8, rest, st).value;
          NotesSeen(d, j, key % 8, rest, st, st', rest', i);
          SeenIsMet(d, rest', st', i);
      }
    }
  }

  /** The required field with a given index. */
  lemma {:induction false} WithIndex(d: Desc, k: nat, n: nat) returns (i: nat)
    requires n <= |d.fields| && k < RequiredBefore(d, n)
    ensures i < n && d.fields[i].presence.Required? && RequiredBefore(d, i) == k
    decreases n
  {
    if k == RequiredBefore(d, n - 1) {
      i := n - 1;
    } else {
      i := WithIndex(d, k, n - 1);
    }
  }

  /** One of the first 64 required fields. */
  ghost predicate Checked(d: Desc, i: nat) {
    i < |d.fields| && d.fields[i].presence.Required? && RequiredBefore(d, i) < 64
  }

  lemma RequiredSeenIff(d: Desc, seen: set<int>)
    ensures RequiredSeen(d, seen) <==> forall i: nat :: Checked(d, i) ==> RequiredBefore(d, i) in seen
  {
    hide RequiredBefore;
    if RequiredSeen(d, seen) {
      forall i: nat | Checked(d, i)
        ensures RequiredBefore(d, i) in seen
      {
        IndexGrows(d, i, |d.fields|);
      }
    }
    if forall i: nat :: Checked(d, i) ==> RequiredBefore(d, i) in seen {
      forall k | 0 <= k < RequiredBefore(d, |d.fields|) && k < PB_MAX_REQUIRED_FIELDS
        ensures k in seen
      {
        var i := WithIndex(d, k, |d.fields|);
        assert Checked(d, i);
      }
    }
  }

  /** Records that can be read make a message exactly if no fixed-count array is left in part
      and each required field among the first 64 has a record. */
  lemma MessageIff(d: Desc, s: Bytes, slots: seq<Slot>)
    requires |slots| == |d.fields| && DecodeLoop(d, s, Loop(slots, {}, None, 0)).Some?
    ensures var start := Loop(slots, {}, None, 0);
            DecodeMessage(d, s, slots).Some? <==>
            && FixedDone(d, DecodeLoop(d, s, start).value)
            && forall i: nat :: Checked(d, i) ==> Meets(d, s, start, i)
  {
    hide DecodeLoop, Meets, FixedDone, RequiredBefore;
    var start := Loop(slots, {}, None, 0);
    var seen := DecodeLoop(d, s, start).value.seen;
    forall i: nat | Checked(d, i)
      ensures RequiredBefore(d, i) in seen <==> Meets(d, s, start, i)
    {
      SeenIsMet(d, s, start, i);
    }
    RequiredSeenIff(d, seen);
  }
}
