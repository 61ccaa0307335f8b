/** Extension blocks (section 4.2 of RFC 8446): a list of type, length, body. */
module Extensions {
  import opened Base

  function ExtBytes(ty: nat, body: Bytes): (r: Bytes)
    ensures |r| == 4 + |body|
  {
    U16(ty) + Vec(2, body)
  }

  /** An extension at the front of a block: type, length, body, rest. */
  lemma {:induction false} ExtParts(ty: nat, body: Bytes, rest: Bytes)
    requires ty < 0x1_0000 && |body| < 0x1_0000
    ensures var s := ExtBytes(ty, body) + rest;
            && GetU16(s, 0) == ty && GetU16(s, 2) == |body| && s[4..4 + |body|] == body && s[4 + |body|..] == rest
  {
    var s := ExtBytes(ty, body) + rest;
    assert s[0..] == U16(ty) + (U16(|body|) + (body + rest));
    Front(s, 0, U16(ty), U16(|body|) + (body + rest));
    Front(s, 2, U16(|body|), body + rest);
    Front(s, 4, body, rest);
    ReadsU16(s, 0, ty);
    ReadsU16(s, 2, |body|);
  }

  lemma {:induction false} ExtUnique(s: Bytes)
    requires 4 <= |s| && 4 + GetU16(s, 2) <= |s|
    ensures var el := GetU16(s, 2); s == ExtBytes(GetU16(s, 0), s[4..4 + el]) + s[4 + el..]
  {
    var el := GetU16(s, 2);
    U16Unique(s, 0);
    U16Unique(s, 2);
    Cut(s, 4, 4 + el);
    assert s == s[0..2] + (s[2..4] + s[4..]);
  }

  datatype RawExt = RawExt(ty: nat, body: Bytes)
  {
    predicate Valid() { ty < 0x1_0000 }
  }

  function EncodeRaw(exts: seq<RawExt>): Bytes {
    if exts == [] then [] else ExtBytes(exts[0].ty, exts[0].body) + EncodeRaw(exts[1..])
  }

  function ParseRaw(s: Bytes): Option<seq<RawExt>>
    decreases |s|
  {
    if s == [] then Some([])
    else if |s| < 4 || 4 + GetU16(s, 2) > |s| then None
    else
      var el := GetU16(s, 2);
      match ParseRaw(s[4 + el..])
      case None => None
      case Some(more) => Some([RawExt(GetU16(s, 0), s[4..4 + el])] + more)
  }

  /** The parser inverts the printer, and accepts nothing else. */
  lemma {:induction false} ParsesRaw(exts: seq<RawExt>)
    requires (forall e <- exts :: e.Valid()) && |EncodeRaw(exts)| < 0x1_0000
    ensures ParseRaw(EncodeRaw(exts)) == Some(exts)
    decreases |exts|
  {
    if exts != [] {
      assert exts[0] in exts && exts == [exts[0]] + exts[1..];
      ExtParts(exts[0].ty, exts[0].body, EncodeRaw(exts[1..]));
      ParsesRaw(exts[1..]);
    }
  }

  lemma {:induction false} DecodesRaw(s: Bytes)
    requires ParseRaw(s).Some?
    ensures EncodeRaw(ParseRaw(s).value) == s && forall e <- ParseRaw(s).value :: e.Valid()
    decreases |s|
  {
    if s != [] {
      var el := GetU16(s, 2);
      ExtUnique(s);
      DecodesRaw(s[4 + el..]);
      assert ParseRaw(s).value[1..] == ParseRaw(s[4 + el..]).value;
    }
  }

  // ---- vectors ----

  function BeValue(width: Width, s: Bytes): nat
    requires width <= |s|
  {
    if width == 1 then s[0] else if width == 2 then GetU16(s, 0) else GetU24(s, 0)
  }

  /** The vector at the front of a string, and what follows it. */
  function TakeVec(width: Width, s: Bytes): Option<(Bytes, Bytes)> {
    if width > |s| || width + BeValue(width, s) > |s| then None
    else Some((s[width..width + BeValue(width, s)], s[width + BeValue(width, s)..]))
  }

  lemma {:induction false} ReadsBe(width: Width, s: Bytes, v: nat)
    requires width <= |s| && s[..width] == Be(width, v) && v < Pow256(width)
    ensures BeValue(width, s) == v
  {
    assert s[..width] == s[0..width];
    if width == 1 {
      BeBytes(v);
      assert s[0] == s[..1][0];
    } else if width == 2 {
      ReadsU16(s, 0, v);
    } else {
      ReadsU24(s, 0, v);
    }
  }

  lemma {:induction false} TakesVec(width: Width, content: Bytes, rest: Bytes)
    requires |content| < Pow256(width)
    ensures TakeVec(width, Vec(width, content) + rest) == Some((content, rest))
  {
    var s := Vec(width, content) + rest;
    assert s == Be(width, |content|) + (content + rest);
    assert s[..width] == Be(width, |content|) && s[width..] == content + rest;
    ReadsBe(width, s, |content|);
    assert s[width..width + |content|] == content && s[width + |content|..] == rest;
  }
}
