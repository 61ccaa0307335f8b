/** Host names and certificate chains: wn_DnsNameMatch, wn_CheckServerName and wn_VerifyChain in
    src/wn_connect.c. */
module HostName {
  import opened Base

  const STAR: Byte := 42
  const DOT: Byte := 46

  function AsciiLower(ch: Byte): Byte {
    if 65 <= ch <= 90 then ch + 32 else ch
  }

  // ---- the specification (section 6.4 of RFC 6125) ----

  ghost predicate SameIgnoringCase(a: Bytes, b: Bytes) {
    |a| == |b| && forall i :: 0 <= i < |a| ==> AsciiLower(a[i]) == AsciiLower(b[i])
  }

  predicate IsWildcard(pat: Bytes) {
    |pat| > 2 && pat[0] == STAR && pat[1] == DOT
  }

  /** The host is one nonempty label without dots, a dot, and the given suffix. */
  ghost predicate LabelThen(host: Bytes, suffix: Bytes) {
    exists first: Bytes, rest: Bytes ::
      host == first + [DOT] + rest && first != [] && DOT !in first && SameIgnoringCase(rest, suffix)
  }

  ghost predicate Matches(pat: Bytes, host: Bytes) {
    if IsWildcard(pat) then LabelThen(host, pat[2..]) else pat != [] && SameIgnoringCase(pat, host)
  }

  // ---- the code ----

  method CaseEq(a: Bytes, b: Bytes, len: nat) returns (eq: bool)
    requires len <= |a| && len <= |b|
    ensures eq <==> SameIgnoringCase(a[..len], b[..len])
  {
    eq := true;
    for i := 0 to len
      invariant eq <==> forall j :: 0 <= j < i ==> AsciiLower(a[j]) == AsciiLower(b[j])
    {
      if AsciiLower(a[i]) != AsciiLower(b[i]) {
        eq := false;
      }
    }
  }

  /** The first dot of the host decides where the suffix starts. */
  lemma {:induction false} FirstDot(host: Bytes, k: nat, suffix: Bytes)
    requires 0 < k < |host| && host[k] == DOT && forall i :: 0 <= i < k ==> host[i] != DOT
    ensures LabelThen(host, suffix) <==> SameIgnoringCase(host[k + 1..], suffix)
  {
    if SameIgnoringCase(host[k + 1..], suffix) {
      assert host == host[..k] + [DOT] + host[k + 1..];
    }
    if LabelThen(host, suffix) {
      var first: Bytes, rest: Bytes :| host == first + [DOT] + rest && first != [] && DOT !in first
        && SameIgnoringCase(rest, suffix);
      var n := |first|;
      assert host[n] == DOT;
      assert forall i :: 0 <= i < n ==> host[i] == first[i] && first[i] in first;
      assert n == k;
      assert host[k + 1..] == rest;
    }
  }

  lemma {:induction false} NoLabel(host: Bytes, k: nat, suffix: Bytes)
    requires k <= |host| && (k == 0 || k == |host|) && (k < |host| ==> host[k] == DOT)
    requires forall i :: 0 <= i < k ==> host[i] != DOT
    ensures !LabelThen(host, suffix)
  {
    forall first: Bytes, rest: Bytes ensures !(host == first + [DOT] + rest && first != [] && DOT !in first) {
      var split := first + [DOT] + rest;
      assert split[|first|] == DOT;
      if first != [] {
        assert split[0] == first[0] && first[0] in first;
      }
    }
  }

  method NameMatch(pat: Bytes, host: Bytes) returns (ret: Code)
    ensures ret == Success <==> Matches(pat, host)
    ensures ret != Success ==> ret == BadCert
  {
    ret := BadCert;
    if pat == [] || host == [] {
      assert IsWildcard(pat) ==> !LabelThen(host, pat[2..]);
    } else if |pat| > 2 && pat[0] == STAR && pat[1] == DOT {
      var k := 0;
      while k < |host| && host[k] != DOT
        invariant 0 <= k <= |host| && forall i :: 0 <= i < k ==> host[i] != DOT
      {
        k := k + 1;
      }
      if 0 < k < |host| {
        FirstDot(host, k, pat[2..]);
        if |pat| - 1 == |host| - k {
          var eq := CaseEq(pat[1..], host[k..], |pat| - 1);
          WithDot(pat[1..], host[k..]);
          if eq {
            ret := Success;
          }
        }
      } else {
        NoLabel(host, k, pat[2..]);
      }
    } else if |pat| == |host| {
      var eq := CaseEq(pat, host, |pat|);
      assert pat[..|pat|] == pat && host[..|pat|] == host;
      if eq {
        ret := Success;
      }
    }
  }

  /** Comparing from the dot on is comparing behind it. */
  lemma {:induction false} WithDot(a: Bytes, b: Bytes)
    requires a != [] && b != [] && a[0] == DOT && b[0] == DOT && |a| == |b|
    ensures SameIgnoringCase(a[..|a|], b[..|a|]) <==> SameIgnoringCase(b[1..], a[1..])
  {
    assert a[..|a|] == a && b[..|a|] == b;
    if SameIgnoringCase(b[1..], a[1..]) {
      forall i | 0 <= i < |a| ensures AsciiLower(a[i]) == AsciiLower(b[i]) {
        assert i > 0 ==> a[i] == a[1..][i - 1] && b[i] == b[1..][i - 1];
      }
    }
  }

  // ---- the certificate's names ----

  datatype AltName = AltName(isDns: bool, name: Bytes)

  ghost predicate SomeDnsMatches(names: seq<AltName>, host: Bytes) {
    exists i :: 0 <= i < |names| && names[i].isDns && Matches(names[i].name, host)
  }

  ghost predicate NoDns(names: seq<AltName>) {
    forall i :: 0 <= i < |names| ==> !names[i].isDns
  }

  /** Some dNSName matches, or there is none and the common name matches. */
  ghost predicate NameAllowed(names: seq<AltName>, cn: Option<Bytes>, host: Bytes) {
    SomeDnsMatches(names, host) || (NoDns(names) && cn.Some? && Matches(cn.value, host))
  }

  method CheckServerName(names: seq<AltName>, cn: Option<Bytes>, host: Bytes) returns (ret: Code)
    ensures ret == Success <==> NameAllowed(names, cn, host)
    ensures ret != Success ==> ret == BadCert
  {
    ret := BadCert;
    var sawDns := false;
    for i := 0 to |names|
      invariant ret == Success || ret == BadCert
      invariant sawDns <==> !NoDns(names[..i])
      invariant ret == Success <==> SomeDnsMatches(names[..i], host)
    {
      assert names[..i + 1] == names[..i] + [names[i]];
      if names[i].isDns {
        sawDns := true;
        var m := NameMatch(names[i].name, host);
        if m == Success {
          ret := Success;
        }
      }
      AltNameStep(names, i, host);
    }
    assert names[..|names|] == names;
    if !sawDns && cn.Some? {
      var m := NameMatch(cn.value, host);
      if m == Success {
        ret := Success;
      }
    }
  }

  lemma {:induction false} AltNameStep(names: seq<AltName>, i: nat, host: Bytes)
    requires i < |names|
    ensures SomeDnsMatches(names[..i + 1], host) <==>
            SomeDnsMatches(names[..i], host) || (names[i].isDns && Matches(names[i].name, host))
    ensures NoDns(names[..i + 1]) <==> NoDns(names[..i]) && !names[i].isDns
  {
    assert names[..i + 1][i] == names[i];
    assert forall j :: 0 <= j < i ==> names[..i + 1][j] == names[..i][j];
  }
}

/** The presented chain, leaf first, up to the pinned anchor. */
module Chain {
  import opened Base
  import opened HostName

  /** A decoded certificate, as far as the checks look at it. */
  datatype Cert = Cert(
    pubKey: Bytes, keyOid: int, isCA: bool,
    keyUsage: Option<bool>,     // present: is digitalSignature allowed?
    extKeyUsage: Option<bool>,  // present: is serverAuth allowed?
    altNames: seq<AltName>, cn: Option<Bytes>)

  /** The certificate library. */
  datatype Pki = Pki(
    parse: Bytes -> Option<Cert>,
    signedBy: (Bytes, Bytes, int) -> bool, // certificate, issuer key, issuer key type
    inDate: (Cert, int) -> bool)

  /** What the caller trusts and asks for; no clock in a build without certificate times. */
  datatype Policy = Policy(anchor: Bytes, serverName: Option<Bytes>, pin: Option<Bytes>, clock: Option<int>,
      hostnames: bool)

  // ---- the specification ----

  function Issuer(pol: Policy, certs: seq<Bytes>, i: nat): Bytes {
    if i + 1 < |certs| then certs[i + 1] else pol.anchor
  }

  predicate InDate(pki: Pki, pol: Policy, cert: Cert) {
    pol.clock.Some? ==> pki.inDate(cert, pol.clock.value)
  }

  /** Certificate i verifies under its issuer, and a presented issuer is a CA and in date unless it
      is the anchor itself. */
  predicate LinkOk(pki: Pki, pol: Policy, certs: seq<Bytes>, i: nat)
    requires i < |certs|
  {
    var der := Issuer(pol, certs, i);
    && pki.parse(der).Some?
    && (var issuer := pki.parse(der).value;
        && pki.signedBy(certs[i], issuer.pubKey, issuer.keyOid)
        && (i + 1 < |certs| ==> issuer.isCA && (der == pol.anchor || InDate(pki, pol, issuer))))
  }

  /** The leaf's key fits the buffer, and usage, pin, name and date allow it. */
  ghost predicate LeafOk(pki: Pki, pol: Policy, cap: nat, der: Bytes) {
    && pki.parse(der).Some?
    && (var leaf := pki.parse(der).value;
        && |leaf.pubKey| <= cap
        && leaf.keyUsage != Some(false) && leaf.extKeyUsage != Some(false)
        && (pol.pin.Some? ==> pol.pin.value != [] && pol.pin.value == leaf.pubKey)
        && (pol.serverName.Some? ==> pol.hostnames && NameAllowed(leaf.altNames, leaf.cn, pol.serverName.value))
        && InDate(pki, pol, leaf))
  }

  ghost predicate ChainOk(pki: Pki, pol: Policy, cap: nat, certs: seq<Bytes>) {
    && certs != []
    && (forall i :: 0 <= i < |certs| ==> LinkOk(pki, pol, certs, i))
    && LeafOk(pki, pol, cap, certs[0])
  }

  // ---- the code ----

  method CheckLink(pki: Pki, pol: Policy, certs: seq<Bytes>, i: nat) returns (ret: Code)
    requires i < |certs|
    ensures ret == Success <==> LinkOk(pki, pol, certs, i)
  {
    var der := if i + 1 < |certs| then certs[i + 1] else pol.anchor;
    var parsed := pki.parse(der);
    if parsed.None? {
      return BadCert;
    }
    var issuer := parsed.value;
    ret := Success;
    if !pki.signedBy(certs[i], issuer.pubKey, issuer.keyOid) {
      ret := BadCert;
    }
    if ret == Success && i + 1 < |certs| && !issuer.isCA {
      ret := BadCert;
    }
    if ret == Success && pol.clock.Some? && i + 1 < |certs| && (|der| != |pol.anchor| || der != pol.anchor) {
      if !pki.inDate(issuer, pol.clock.value) {
        ret := BadCert;
      }
    }
  }

  /** The checks on the leaf; its key is copied to out[off..] as soon as it is known to fit. */
  method CheckLeaf(pki: Pki, pol: Policy, cap: nat, der: Bytes, out: array<Byte>, off: nat)
      returns (ret: Code, spkiLen: nat)
    requires off + cap <= out.Length
    modifies out
    ensures spkiLen <= cap && (ret == Success <==> LeafOk(pki, pol, cap, der))
    ensures ret == Success ==>
            spkiLen == |pki.parse(der).value.pubKey| && out[off..off + spkiLen] == pki.parse(der).value.pubKey
    ensures forall i :: 0 <= i < out.Length && !(off <= i < off + cap) ==> out[i] == old(out[i])
  {
    spkiLen := cap;
    var parsed := pki.parse(der);
    if parsed.None? {
      return BadCert, spkiLen;
    }
    var leaf := parsed.value;
    if |leaf.pubKey| > cap {
      return Code.Crypto, spkiLen;
    }
    forall i | 0 <= i < |leaf.pubKey| {
      out[off + i] := leaf.pubKey[i];
    }
    spkiLen, ret := |leaf.pubKey|, Success;
    assert out[off..off + spkiLen] == leaf.pubKey;
    if leaf.keyUsage == Some(false) || leaf.extKeyUsage == Some(false) {
      ret := BadCert;
    }
    if ret == Success && pol.pin.Some? && (|pol.pin.value| == 0 || pol.pin.value != leaf.pubKey) {
      ret := BadCert;
    }
    if ret == Success && pol.serverName.Some? {
      if pol.hostnames {
        ret := CheckServerName(leaf.altNames, leaf.cn, pol.serverName.value);
      } else {
        ret := Unsupported;
      }
    }
    if ret == Success && pol.clock.Some? && !pki.inDate(leaf, pol.clock.value) {
      ret := BadCert;
    }
  }

  /** wn_VerifyChain: the verdict is the specification's, for every chain length. */
  method VerifyChain(pki: Pki, pol: Policy, cap: nat, certs: seq<Bytes>, out: array<Byte>, off: nat)
      returns (ret: Code, spkiLen: nat)
    requires off + cap <= out.Length
    modifies out
    ensures spkiLen <= cap && (ret == Success <==> ChainOk(pki, pol, cap, certs))
    ensures ret == Success ==>
            spkiLen == |pki.parse(certs[0]).value.pubKey|
            && out[off..off + spkiLen] == pki.parse(certs[0]).value.pubKey
    ensures forall i :: 0 <= i < out.Length && !(off <= i < off + cap) ==> out[i] == old(out[i])
  {
    ret, spkiLen := Success, cap;
    if |certs| < 1 {
      ret := InvalidArg;
    }
    var i := 0;
    while i < |certs| && ret == Success
      invariant 0 <= i <= |certs| && out[..] == old(out[..])
      invariant ret == Success ==> certs != [] && forall j :: 0 <= j < i ==> LinkOk(pki, pol, certs, j)
      invariant ret != Success ==> certs == [] || exists j :: 0 <= j < |certs| && !LinkOk(pki, pol, certs, j)
      decreases |certs| - i, ret == Success
    {
      ret := CheckLink(pki, pol, certs, i);
      i := i + 1;
    }
    assert forall k :: 0 <= k < out.Length ==> out[k] == out[..][k] == old(out[k]);
    if ret == Success {
      ret, spkiLen := CheckLeaf(pki, pol, cap, certs[0], out, off);
    }
  }
}

/** The same two verdicts seen the other way round: names label by label, the chain from the anchor down. */
module IdentityLaw {
  import opened Base
  import opened HostName
  import opened Chain

  // ---- names (sections 6.4.1 and 6.4.3 of RFC 6125) ----

  /** The parts between the dots. */
  ghost function Labels(s: Bytes): (r: seq<Bytes>)
    ensures r != []
  {
    if s == [] then [[]]
    else
      var rest := Labels(s[1..]);
      if s[0] == 46 then [[]] + rest else [[s[0]] + rest[0]] + rest[1..]
  }

  /** The same letter, or the same but for its case. */
  predicate SameLetter(a: Byte, b: Byte) {
    a == b || (65 <= a <= 90 && b == a + 32) || (65 <= b <= 90 && a == b + 32)
  }

  ghost predicate SameLabel(a: Bytes, b: Bytes) {
    |a| == |b| && forall i :: 0 <= i < |a| ==> SameLetter(a[i], b[i])
  }

  ghost predicate SameLabels(a: seq<Bytes>, b: seq<Bytes>) {
    |a| == |b| && forall i :: 0 <= i < |a| ==> SameLabel(a[i], b[i])
  }

  /** As many labels, the same ones in the same order; an asterisk in front of something stands for any
      one label that is not empty. */
  ghost predicate NamesHost(pat: Bytes, host: Bytes) {
    var p, h := Labels(pat), Labels(host);
    && pat != []
    && if |p| > 1 && p[0] == [42] && p != [[42], []] then h[0] != [] && SameLabels(p[1..], h[1..]) && |h| > 1
       else SameLabels(p, h)
  }

  lemma {:induction false} LettersFold(a: Byte, b: Byte)
    ensures AsciiLower(a) == AsciiLower(b) <==> SameLetter(a, b)
  {
  }

  lemma {:induction false} DotStays(a: Byte)
    ensures SameLetter(a, 46) <==> a == 46
    ensures SameLetter(46, a) <==> a == 46
  {
  }

  /** Equal but for case, letter by letter or label by label. */
  lemma {:induction false} LabelsFold(a: Bytes, b: Bytes)
    ensures SameLabel(a, b) <==> SameLabels(Labels(a), Labels(b))
    decreases |a|
  {
    if a == [] || b == [] {
      Nonempty(a);
      Nonempty(b);
      EmptyFolds(Labels(a));
      EmptyFolds(Labels(b));
    } else {
      LabelsFold(a[1..], b[1..]);
      DotStays(a[0]);
      DotStays(b[0]);
      HeadFolds(a, b);
      if (a[0] == 46) == (b[0] == 46) {
        HeadsFold(a, b);
      } else {
        assert |Labels(a)[0]| == 0 <==> |Labels(b)[0]| != 0;
      }
    }
  }

  lemma {:induction false} EmptyFolds(p: seq<Bytes>)
    ensures SameLabels(p, [[]]) <==> p == [[]]
    ensures SameLabels([[]], p) <==> p == [[]]
  {
    if |p| == 1 {
      assert p[0] == [] ==> p == [[]];
    }
  }

  /** What a first letter, or a dot in both, does to the labels. */
  lemma {:induction false} HeadsFold(a: Bytes, b: Bytes)
    requires a != [] && b != [] && (a[0] == 46 <==> b[0] == 46)
    ensures SameLabels(Labels(a), Labels(b)) <==>
            SameLetter(a[0], b[0]) && SameLabels(Labels(a[1..]), Labels(b[1..]))
  {
    var p, h := Labels(a), Labels(b);
    var p', h' := Labels(a[1..]), Labels(b[1..]);
    OneMore(p, h);
    if a[0] == 46 {
      assert p[1..] == p' && h[1..] == h';
    } else {
      OneMore(p', h');
      assert p[1..] == p'[1..] && h[1..] == h'[1..];
      HeadFolds(p[0], h[0]);
      assert p[0][1..] == p'[0] && h[0][1..] == h'[0];
    }
  }

  lemma {:induction false} HeadFolds(a: Bytes, b: Bytes)
    requires a != [] && b != []
    ensures SameLabel(a, b) <==> SameLetter(a[0], b[0]) && SameLabel(a[1..], b[1..])
  {
    if SameLetter(a[0], b[0]) && SameLabel(a[1..], b[1..]) {
      forall i | 0 <= i < |a| ensures SameLetter(a[i], b[i]) {
        assert i > 0 ==> a[i] == a[1..][i - 1] && b[i] == b[1..][i - 1];
      }
    }
  }

  lemma {:induction false} OneMore(p: seq<Bytes>, h: seq<Bytes>)
    requires p != [] && h != []
    ensures SameLabels(p, h) <==> SameLabel(p[0], h[0]) && SameLabels(p[1..], h[1..])
  {
    if SameLabel(p[0], h[0]) && SameLabels(p[1..], h[1..]) {
      forall i | 0 <= i < |p| ensures |p| == |h| && SameLabel(p[i], h[i]) {
        assert i > 0 ==> p[i] == p[1..][i - 1] && h[i] == h[1..][i - 1];
      }
    }
  }

  lemma {:induction false} Folds(a: Bytes, b: Bytes)
    ensures SameIgnoringCase(a, b) <==> SameLabel(a, b)
  {
    forall i | 0 <= i < |a| && |a| == |b| ensures AsciiLower(a[i]) == AsciiLower(b[i]) <==> SameLetter(a[i], b[i]) {
      LettersFold(a[i], b[i]);
    }
  }

  /** The first label ends at the first dot. */
  lemma {:induction false} FirstLabel(s: Bytes, k: nat)
    requires k < |s| && s[k] == 46 && forall i :: 0 <= i < k ==> s[i] != 46
    ensures Labels(s) == [s[..k]] + Labels(s[k + 1..])
    decreases k
  {
    if k > 0 {
      FirstLabel(s[1..], k - 1);
      assert s[1..][..k - 1] == s[1..k] && s[1..][k - 1 + 1..] == s[k + 1..];
      assert [s[0]] + s[1..k] == s[..k];
    }
  }

  lemma {:induction false} NoDotOneLabel(s: Bytes)
    requires forall i :: 0 <= i < |s| ==> s[i] != 46
    ensures Labels(s) == [s]
  {
    if s != [] {
      NoDotOneLabel(s[1..]);
      assert [s[0]] + s[1..] == s;
    }
  }

  /** Where the first dot is, if there is one. */
  lemma {:induction false} SplitAtDot(s: Bytes) returns (k: nat)
    ensures k <= |s| && forall i :: 0 <= i < k ==> s[i] != 46
    ensures k < |s| ==> s[k] == 46
  {
    k := 0;
    while k < |s| && s[k] != 46
      invariant k <= |s| && forall i :: 0 <= i < k ==> s[i] != 46
    {
      k := k + 1;
    }
  }

  lemma {:induction false} WildcardLabels(pat: Bytes)
    ensures IsWildcard(pat) <==> |Labels(pat)| > 1 && Labels(pat)[0] == [42] && Labels(pat) != [[42], []]
    ensures IsWildcard(pat) ==> Labels(pat)[1..] == Labels(pat[2..])
  {
    var k := SplitAtDot(pat);
    if k < |pat| {
      FirstLabel(pat, k);
      if k == 1 {
        var rest := Labels(pat[2..]);
        assert pat[..1] == [pat[0]];
        assert Labels(pat) == [[pat[0]]] + rest;
        Nonempty(pat[2..]);
        if Labels(pat) == [[42], []] {
          assert rest == [[42], []][1..] == [[]];
        }
      }
    } else {
      NoDotOneLabel(pat);
    }
  }

  lemma {:induction false} Nonempty(s: Bytes)
    ensures Labels(s) == [[]] <==> s == []
  {
    if s != [] && s[0] == 46 {
      assert |Labels(s)| == 1 + |Labels(s[1..])|;
    } else if s != [] {
      assert s[0] in Labels(s)[0];
    }
  }

  /** The two ways to say that a name in a certificate is the host's. */
  lemma {:induction false} MatchesByLabel(pat: Bytes, host: Bytes)
    ensures Matches(pat, host) <==> NamesHost(pat, host)
  {
    WildcardLabels(pat);
    if IsWildcard(pat) {
      var k := SplitAtDot(host);
      if k < |host| {
        FirstLabel(host, k);
        var rest := host[k + 1..];
        Folds(rest, pat[2..]);
        Folds(pat[2..], rest);
        LabelsFold(pat[2..], rest);
        Turned(pat[2..], rest);
        if k > 0 {
          FirstDot(host, k, pat[2..]);
        } else {
          NoLabel(host, 0, pat[2..]);
        }
      } else {
        NoDotOneLabel(host);
        NoLabel(host, k, pat[2..]);
      }
    } else {
      Folds(pat, host);
      LabelsFold(pat, host);
    }
  }

  lemma {:induction false} Turned(a: Bytes, b: Bytes)
    ensures SameLabel(a, b) <==> SameLabel(b, a)
  {
  }

  // ---- chains (section 6.1 of RFC 5280, without the parts that the driver leaves out) ----

  /** From the anchor down: it vouches for the last certificate, and each certificate that is an authority
      and valid now, or the anchor's own, for the one before it. */
  ghost predicate Vouched(pki: Pki, anchor: Bytes, clock: Option<int>, certs: seq<Bytes>)
    requires certs != []
    decreases |certs|
  {
    if |certs| == 1 then Vouches(pki, anchor, certs[0])
    else
      && Vouched(pki, anchor, clock, certs[1..]) && Vouches(pki, certs[1], certs[0])
      && pki.parse(certs[1]).value.isCA
      && (certs[1] == anchor || clock.None? || pki.inDate(pki.parse(certs[1]).value, clock.value))
  }

  /** The key in the upper certificate verifies the signature on the lower one. */
  predicate Vouches(pki: Pki, upper: Bytes, lower: Bytes) {
    match pki.parse(upper)
    case None => false
    case Some(u) => pki.signedBy(lower, u.pubKey, u.keyOid)
  }

  /** The leaf may sign a handshake for a server that is asked for in this way. */
  ghost predicate Suits(pki: Pki, pol: Policy, cap: nat, der: Bytes) {
    match pki.parse(der)
    case None => false
    case Some(leaf) =>
      && |leaf.pubKey| <= cap && (leaf.keyUsage == None || leaf.keyUsage == Some(true))
      && (leaf.extKeyUsage == None || leaf.extKeyUsage == Some(true))
      && (pol.clock == None || pki.inDate(leaf, pol.clock.value))
      && (pol.pin == None || (leaf.pubKey != [] && pol.pin == Some(leaf.pubKey)))
      && (pol.serverName == None || (pol.hostnames && Bears(leaf, pol.serverName.value)))
  }

  /** An alternative name is the host's; the common name counts only where no alternative name is a
      host name. */
  ghost predicate Bears(leaf: Cert, host: Bytes) {
    || (exists i :: 0 <= i < |leaf.altNames| && leaf.altNames[i].isDns && NamesHost(leaf.altNames[i].name, host))
    || ((forall i :: 0 <= i < |leaf.altNames| ==> !leaf.altNames[i].isDns)
        && leaf.cn.Some? && NamesHost(leaf.cn.value, host))
  }

  lemma {:induction false} AllowedBears(leaf: Cert, host: Bytes)
    ensures NameAllowed(leaf.altNames, leaf.cn, host) <==> Bears(leaf, host)
  {
    forall pat ensures Matches(pat, host) <==> NamesHost(pat, host) {
      MatchesByLabel(pat, host);
    }
  }

  lemma {:induction false} LinksVouch(pki: Pki, pol: Policy, certs: seq<Bytes>)
    requires certs != []
    ensures (forall i :: 0 <= i < |certs| ==> LinkOk(pki, pol, certs, i)) <==>
            Vouched(pki, pol.anchor, pol.clock, certs)
    decreases |certs|
  {
    if |certs| > 1 {
      LinksVouch(pki, pol, certs[1..]);
      assert forall i :: 0 < i < |certs| ==> LinkOk(pki, pol, certs, i) == LinkOk(pki, pol, certs[1..], i - 1);
      if Vouched(pki, pol.anchor, pol.clock, certs) {
        forall i | 0 <= i < |certs| ensures LinkOk(pki, pol, certs, i) {
          assert i > 0 ==> LinkOk(pki, pol, certs[1..], i - 1);
        }
      }
      if forall i :: 0 <= i < |certs| ==> LinkOk(pki, pol, certs, i) {
        forall i | 0 <= i < |certs[1..]| ensures LinkOk(pki, pol, certs[1..], i) {
          assert LinkOk(pki, pol, certs, i + 1);
        }
        assert LinkOk(pki, pol, certs, 0);
      }
    } else {
      assert LinkOk(pki, pol, certs, 0) <==> Vouches(pki, pol.anchor, certs[0]);
    }
  }

  lemma {:induction false} NotForbidden(use: Option<bool>)
    ensures use != Some(false) <==> use == None || use == Some(true)
  {
    if use.Some? && use.value {
      assert use == Some(true);
    }
  }

  lemma {:induction false} LeafSuits(pki: Pki, pol: Policy, cap: nat, der: Bytes)
    ensures LeafOk(pki, pol, cap, der) <==> Suits(pki, pol, cap, der)
  {
    if pki.parse(der).Some? && pol.serverName.Some? {
      AllowedBears(pki.parse(der).value, pol.serverName.value);
    }
    if pki.parse(der).Some? {
      NotForbidden(pki.parse(der).value.keyUsage);
      NotForbidden(pki.parse(der).value.extKeyUsage);
    }
  }

  /** A chain passes exactly if the anchor vouches for all of it and its leaf suits the caller. */
  lemma {:induction false} ChainMeans(pki: Pki, pol: Policy, cap: nat, certs: seq<Bytes>)
    ensures ChainOk(pki, pol, cap, certs) <==>
            certs != [] && Vouched(pki, pol.anchor, pol.clock, certs) && Suits(pki, pol, cap, certs[0])
  {
    if certs != [] {
      LinksVouch(pki, pol, certs);
      LeafSuits(pki, pol, cap, certs[0]);
    }
  }
}
