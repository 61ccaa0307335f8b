/** The sticky-error writer and reader of src/wn_msg.c. */
module Wire {
  import opened Base

  class Writer {
    const buf: array<Byte>
    const cap: nat
    var len: nat
    var err: bool
    ghost var want: Bytes // everything asked for so far, whether or not it fit

    /** The error is latched exactly when more was asked for than fits; until then the buffer holds
        all of it. */
    ghost predicate Valid()
      reads this, buf
    {
      && len <= cap <= buf.Length && cap <= MAX_BUFFER
      && err == (|want| > cap)
      && (!err ==> len == |want| && buf[..len] == want)
    }

    /** Since `before`, exactly `bs` has been written, or some of it did not fit. */
    ghost predicate Emitted(before: Bytes, bs: Bytes)
      reads this
    {
      |want| == |before| + |bs| && (!err ==> want == before + bs)
    }

    constructor (buf: array<Byte>, cap: nat)
      requires cap <= buf.Length && cap <= MAX_BUFFER
      ensures Valid() && this.buf == buf && this.cap == cap
      ensures !err && want == []
    {
      this.buf, this.cap, len, err, want := buf, cap, 0, false, [];
    }

    method WriteU8(v: Byte)
      requires Valid()
      modifies this, buf
      ensures Valid() && want == old(want) + [v]
    {
      if !err && len < cap {
        buf[len] := v;
        len := len + 1;
      } else {
        err := true;
      }
      want := want + [v];
    }

    method WriteU16(v: nat)
      requires Valid()
      modifies this, buf
      ensures Valid() && want == old(want) + U16(v)
    {
      if !err && Add32(len, 2) <= cap {
        buf[len] := Digit(v, 1);
        buf[len + 1] := Digit(v, 0);
        len := len + 2;
      } else {
        err := true;
      }
      want := want + U16(v);
    }

    method WriteU24(v: nat)
      requires Valid()
      modifies this, buf
      ensures Valid() && want == old(want) + U24(v)
    {
      if !err && Add32(len, 3) <= cap {
        buf[len] := Digit(v, 2);
        buf[len + 1] := Digit(v, 1);
        buf[len + 2] := Digit(v, 0);
        len := len + 3;
      } else {
        err := true;
      }
      want := want + U24(v);
    }

    method WriteBytes(p: Bytes)
      requires Valid() && len + |p| < WORD32
      modifies this, buf
      ensures Valid() && want == old(want) + p
    {
      if !err && Add32(len, |p|) <= cap {
        forall i | 0 <= i < |p| {
          buf[len + i] := p[i];
        }
        len := len + |p|;
      } else {
        err := true;
      }
      want := want + p;
    }

    /** Reserve a 1-, 2- or 3-byte length. */
    method LenStart(lenBytes: Width) returns (off: nat)
      requires Valid()
      modifies this, buf
      ensures Valid() && want == old(want) + Zeros(lenBytes)
      ensures !err ==> off == |want|
    {
      for i := 0 to lenBytes
        invariant Valid() && want == old(want) + Zeros(i)
      {
        WriteU8(0);
        assert Zeros(i) + [0] == Zeros(i + 1);
      }
      off := len;
    }

    /** Backfill the length reserved just before `offset` with the number of bytes written since;
        a count too long for its prefix loses its high bytes. */
    method LenEnd(offset: nat, lenBytes: Width)
      requires Valid()
      requires !err ==> lenBytes <= offset <= len
      modifies this`want, buf
      ensures Valid() && |want| == |old(want)|
      ensures !err ==> want == old(want)[..offset - lenBytes] + Be(lenBytes, |want| - offset) + old(want)[offset..]
      ensures forall j :: 0 <= j < buf.Length && (err || !(offset - lenBytes <= j < offset)) ==> buf[j] == old(buf[j])
    {
      if !err {
        var contentLen := len - offset;
        var lenPos := offset - lenBytes;
        for i := 0 to lenBytes
          invariant want == old(want)
          invariant forall j :: 0 <= j < i ==> buf[lenPos + j] == Be(lenBytes, contentLen)[j]
          invariant forall j :: 0 <= j < buf.Length && !(lenPos <= j < lenPos + i) ==> buf[j] == old(buf[j])
        {
          buf[lenPos + i] := Digit(contentLen, lenBytes - 1 - i);
        }
        want := want[..lenPos] + Be(lenBytes, contentLen) + want[offset..];
      }
    }

    /** When LenStart and LenEnd bracket an emission, the result is a vector. */
    lemma {:induction false} Bracket(before: Bytes, lenBytes: Width, body: Bytes, open: Bytes)
      requires |open| == |before| + lenBytes + |body| && |want| == |open|
      requires !err ==> open == before + Zeros(lenBytes) + body
      requires !err ==> want == open[..|before|] + Be(lenBytes, |body|) + open[|before| + lenBytes..]
      ensures Emitted(before, Vec(lenBytes, body))
    {
      if !err {
        assert open[..|before|] == before;
        assert open[|before| + lenBytes..] == body;
        assert before + Be(lenBytes, |body|) + body == before + Vec(lenBytes, body);
      }
    }
  }

  class Reader {
    const buf: Bytes
    var pos: nat
    var err: bool

    ghost predicate Valid()
      reads this
    {
      pos <= |buf| <= MAX_BUFFER
    }

    ghost predicate Has(e0: bool, p0: nat, n: nat)
    {
      !e0 && p0 + n <= |buf|
    }

    constructor (buf: Bytes)
      requires |buf| <= MAX_BUFFER
      ensures Valid() && this.buf == buf && pos == 0 && !err
    {
      this.buf, pos, err := buf, 0, false;
    }

    method ReadU8() returns (v: Byte)
      requires Valid()
      modifies this
      ensures Valid() && err == !Has(old(err), old(pos), 1)
      ensures !err ==> pos == old(pos) + 1 && v == buf[old(pos)]
      ensures err ==> pos == old(pos) && v == 0
    {
      v := 0;
      if !err && pos < |buf| {
        v := buf[pos];
        pos := pos + 1;
      } else {
        err := true;
      }
    }

    method ReadU16() returns (v: nat)
      requires Valid()
      modifies this
      ensures Valid() && err == !Has(old(err), old(pos), 2)
      ensures !err ==> pos == old(pos) + 2 && v == GetU16(buf, old(pos))
      ensures err ==> pos == old(pos) && v == 0
      ensures v < 0x1_0000
    {
      v := 0;
      if !err && Add32(pos, 2) <= |buf| {
        v := buf[pos] as int * 0x100 + buf[pos + 1];
        pos := pos + 2;
      } else {
        err := true;
      }
    }

    method ReadU24() returns (v: nat)
      requires Valid()
      modifies this
      ensures Valid() && err == !Has(old(err), old(pos), 3)
      ensures !err ==> pos == old(pos) + 3 && v == GetU24(buf, old(pos))
      ensures err ==> pos == old(pos) && v == 0
      ensures v < MAX_FIELD
    {
      v := 0;
      if !err && Add32(pos, 3) <= |buf| {
        v := buf[pos] as int * 0x1_0000 + buf[pos + 1] as int * 0x100 + buf[pos + 2];
        pos := pos + 3;
      } else {
        err := true;
      }
    }

    /** None stands for the NULL pointer of a short read. */
    method ReadBytes(n: nat) returns (p: Option<Bytes>)
      requires Valid() && pos + n < WORD32
      modifies this
      ensures Valid() && err == !Has(old(err), old(pos), n)
      ensures !err ==> pos == old(pos) + n && p == Some(buf[old(pos)..old(pos) + n])
      ensures err ==> pos == old(pos) && p == None
    {
      p := None;
      if !err && Add32(pos, n) <= |buf| {
        p := Some(buf[pos..pos + n]);
        pos := pos + n;
      } else {
        err := true;
      }
    }
  }
}

/** Length backfill against recursive serialisation: any tree of nested vectors. */
module WireTree {
  import opened Base
  import opened Wire

  datatype Item =
    | Num(width: Width, value: nat)
    | Raw(data: Bytes)
    | Nest(width: Width, items: seq<Item>)

  /** What a matching sequence of reads has to know: the same tree without its values. */
  datatype Shape =
    | NumShape(width: Width)
    | RawShape(size: nat)
    | NestShape(width: Width, shapes: seq<Shape>)

  function Encode(it: Item): Bytes
    decreases it
  {
    match it
    case Num(w, v) => Be(w, v)
    case Raw(d) => d
    case Nest(w, items) => Vec(w, EncodeAll(items))
  }

  function EncodeAll(items: seq<Item>): Bytes
    decreases items
  {
    if items == [] then [] else Encode(items[0]) + EncodeAll(items[1..])
  }

  /** Values fit their width and contents fit their prefix. */
  predicate Fits(it: Item)
    decreases it
  {
    match it
    case Num(w, v) => v < Pow256(w)
    case Raw(d) => |d| < MAX_FIELD
    case Nest(w, items) => FitsAll(items) && |EncodeAll(items)| < Pow256(w)
  }

  predicate FitsAll(items: seq<Item>)
    decreases items
  {
    items != [] ==> Fits(items[0]) && FitsAll(items[1..])
  }

  function ShapeOf(it: Item): Shape
    decreases it
  {
    match it
    case Num(w, _) => NumShape(w)
    case Raw(d) => RawShape(|d|)
    case Nest(w, items) => NestShape(w, ShapesOf(items))
  }

  function ShapesOf(items: seq<Item>): (r: seq<Shape>)
    ensures |r| == |items|
    decreases items
  {
    if items == [] then [] else [ShapeOf(items[0])] + ShapesOf(items[1..])
  }

  /** The two-pass writer produces the recursive encoding, and fails exactly for lack of room. */
  method WriteItem(w: Writer, it: Item)
    requires w.Valid() && Fits(it)
    modifies w, w.buf
    ensures w.Valid() && w.Emitted(old(w.want), Encode(it))
    decreases it
  {
    match it {
      case Num(k, v) => WriteNum(w, k, v);
      case Raw(d) => w.WriteBytes(d);
      case Nest(k, items) =>
        ghost var before := w.want;
        var off := w.LenStart(k);
        WriteItems(w, items);
        ghost var open := w.want;
        w.LenEnd(off, k);
        w.Bracket(before, k, EncodeAll(items), open);
    }
  }

  method WriteItems(w: Writer, items: seq<Item>)
    requires w.Valid() && FitsAll(items)
    modifies w, w.buf
    ensures w.Valid() && w.Emitted(old(w.want), EncodeAll(items))
    decreases items
  {
    if items != [] {
      WriteItem(w, items[0]);
      ghost var mid := w.want;
      WriteItems(w, items[1..]);
      assert old(w.want) + Encode(items[0]) + EncodeAll(items[1..]) == old(w.want) + EncodeAll(items);
    }
  }

  method WriteNum(w: Writer, width: Width, v: nat)
    requires w.Valid() && v < Pow256(width)
    modifies w, w.buf
    ensures w.Valid() && w.want == old(w.want) + Be(width, v)
  {
    if width == 1 {
      BeBytes(v);
      w.WriteU8(v);
    } else if width == 2 {
      w.WriteU16(v);
    } else {
      w.WriteU24(v);
    }
  }

  method ReadNum(r: Reader, width: Width) returns (v: nat)
    requires r.Valid()
    modifies r
    ensures r.Valid() && r.err == !r.Has(old(r.err), old(r.pos), width)
    ensures !r.err ==> r.pos == old(r.pos) + width && v < Pow256(width) && Be(width, v) == r.buf[old(r.pos)..r.pos]
  {
    if width == 1 {
      v := r.ReadU8();
      BeBytes(v);
    } else if width == 2 {
      v := r.ReadU16();
      if !r.err { U16Unique(r.buf, old(r.pos)); }
    } else {
      v := r.ReadU24();
      if !r.err { U24Unique(r.buf, old(r.pos)); }
    }
  }

  lemma {:induction false} BeInjective(width: Width, v: nat, u: nat)
    requires v < Pow256(width) && u < Pow256(width) && Be(width, v) == Be(width, u)
    ensures v == u
  {
    if width == 1 {
      BeBytes(v); BeBytes(u);
    } else if width == 2 {
      U16RoundTrip(v); U16RoundTrip(u);
    } else {
      U24RoundTrip(v); U24RoundTrip(u);
    }
  }

  /** Reads that follow the shape of an encoded tree recover every value and end right behind it. */
  method ReadItem(r: Reader, shape: Shape, ghost it: Item) returns (got: Item)
    requires r.Valid() && !r.err
    requires Fits(it) && shape == ShapeOf(it) && Encode(it) <= r.buf[r.pos..]
    modifies r
    ensures r.Valid() && !r.err && r.pos == old(r.pos) + |Encode(it)|
    ensures got == it
    decreases shape
  {
    ghost var enc, p0 := Encode(it), r.pos;
    assert enc == r.buf[p0..p0 + |enc|];
    match shape {
      case NumShape(k) =>
        var v := ReadNum(r, k);
        BeInjective(k, v, it.value);
        got := Num(k, v);
      case RawShape(n) =>
        var p := r.ReadBytes(n);
        got := Raw(p.value);
      case NestShape(k, shapes) =>
        ghost var body := EncodeAll(it.items);
        var size := ReadNum(r, k);
        assert Be(k, size) == enc[..k] == Be(k, |body|);
        BeInjective(k, size, |body|);
        assert body == enc[k..] == r.buf[p0 + k..p0 + |enc|];
        var items := ReadItems(r, shapes, it.items);
        got := Nest(k, items);
    }
  }

  method ReadItems(r: Reader, shapes: seq<Shape>, ghost items: seq<Item>) returns (got: seq<Item>)
    requires r.Valid() && !r.err
    requires FitsAll(items) && shapes == ShapesOf(items) && EncodeAll(items) <= r.buf[r.pos..]
    modifies r
    ensures r.Valid() && !r.err && r.pos == old(r.pos) + |EncodeAll(items)|
    ensures got == items
    decreases shapes
  {
    if shapes == [] {
      got := [];
    } else {
      ghost var e0, p0 := Encode(items[0]), r.pos;
      assert EncodeAll(items)[..|e0|] == e0;
      var first := ReadItem(r, shapes[0], items[0]);
      assert EncodeAll(items[1..]) == EncodeAll(items)[|e0|..];
      var rest := ReadItems(r, shapes[1..], items[1..]);
      got := [first] + rest;
    }
  }

  /** A tree survives the buffer: writing succeeds exactly when the encoding fits, the buffer then
      holds the recursive encoding, and matching reads recover the tree and end behind its last byte. */
  method RoundTrip(buf: array<Byte>, cap: nat, items: seq<Item>) returns (ok: bool, got: seq<Item>, used: nat)
    requires cap <= buf.Length && cap <= MAX_BUFFER && FitsAll(items)
    modifies buf
    ensures ok == (|EncodeAll(items)| <= cap)
    ensures ok ==> buf[..|EncodeAll(items)|] == EncodeAll(items) && got == items && used == |EncodeAll(items)|
  {
    var w := new Writer(buf, cap);
    WriteItems(w, items);
    ok, got, used := !w.err, [], 0;
    if ok {
      var r := new Reader(buf[..w.len]);
      got := ReadItems(r, ShapesOf(items), items);
      used := r.pos;
    }
  }
}
