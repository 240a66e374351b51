/** RADIUS messages (radius_message.c): building and enumerating attributes, signing and verifying. */
module RadiusMessage {
  import opened Bytes
  import opened RadiusCrypt

  const HEADER: nat := 20
  const MAX_ATTRIBUTE: nat := 253

  const ACCESS_REQUEST: Byte := 1
  const USER_PASSWORD: Byte := 2
  const VENDOR_SPECIFIC: Byte := 26
  const EAP_MESSAGE: Byte := 79
  const MESSAGE_AUTHENTICATOR: Byte := 80

  // ---------------------------------------------------------------- layout

  function Code(m: seq<Byte>): Byte
    requires |m| >= HEADER
  {
    m[0]
  }

  function Length(m: seq<Byte>): nat
    requires |m| >= HEADER
  {
    FromBe16(m[2..4])
  }

  function Authenticator(m: seq<Byte>): Block
    requires |m| >= HEADER
  {
    m[4..20]
  }

  function WithAuthenticator(m: seq<Byte>, a: Block): (r: seq<Byte>)
    requires |m| >= HEADER
    ensures |r| == |m| && r[..4] == m[..4] && r[20..] == m[20..] && Authenticator(r) == a
  {
    m[..4] + a + m[20..]
  }

  function WithLength(m: seq<Byte>): (r: seq<Byte>)
    requires HEADER <= |m| < 0x1_0000
    ensures |r| == |m| && r[..2] == m[..2] && r[4..] == m[4..] && Length(r) == |r|
  {
    Be16RoundTrip(|m|, []);
    var r := m[..2] + Be16(|m|) + m[4..];
    assert r[2..4] == Be16(|m|) + [];
    r
  }

  /** A buffer that is as long as its length field says */
  ghost predicate WellFormed(m: seq<Byte>) { |m| >= HEADER && Length(m) == |m| }

  // ---------------------------------------------------------------- attributes

  datatype Attr = Attr(kind: Byte, value: seq<Byte>)

  function Encode(a: Attr): (s: seq<Byte>)
    requires |a.value| <= MAX_ATTRIBUTE
  {
    [a.kind, (|a.value| + 2) as Byte] + a.value
  }

  /** add cuts values that are too long. */
  function Cut(value: seq<Byte>): (v: seq<Byte>)
    ensures |v| <= MAX_ATTRIBUTE
  {
    value[..Min(|value|, MAX_ATTRIBUTE)]
  }

  /** There is an attribute at the start of `s` that lies within `s`. */
  predicate HasAttr(s: seq<Byte>) { |s| >= 2 && 2 <= s[1] as int <= |s| }

  /** What enumerating a byte string yields: attributes up to the end or the first truncated one */
  function Split(s: seq<Byte>): seq<Attr>
    decreases |s|
  {
    if HasAttr(s) then [Attr(s[0], s[2..s[1]])] + Split(s[s[1]..]) else []
  }

  /** A byte string made of whole attributes */
  predicate Whole(s: seq<Byte>)
    decreases |s|
  {
    s == [] || (HasAttr(s) && Whole(s[s[1]..]))
  }

  lemma EncodeSplits(a: Attr)
    requires |a.value| <= MAX_ATTRIBUTE
    ensures Whole(Encode(a)) && Split(Encode(a)) == [a]
  {
    var t := Encode(a);
    assert t[2..t[1]] == a.value && t[t[1]..] == [];
  }

  lemma {:induction false} SplitAppend(s: seq<Byte>, a: Attr)
    requires Whole(s) && |a.value| <= MAX_ATTRIBUTE
    ensures Whole(s + Encode(a)) && Split(s + Encode(a)) == Split(s) + [a]
    decreases |s|
  {
    EncodeSplits(a);
    var e := Encode(a);
    var t := s + e;
    if s == [] {
      assert t == e;
    } else {
      var n := s[1] as int;
      SplitAppend(s[n..], a);
      assert t[0] == s[0] && t[1] == s[1] && t[2..n] == s[2..n] && t[n..] == s[n..] + e;
    }
  }

  // ---------------------------------------------------------------- attributes by position

  /** There is an attribute at position `p` that lies within the message. */
  predicate AttrAt(m: seq<Byte>, p: nat) { p + 2 <= |m| && 2 <= m[p + 1] && p + m[p + 1] as int <= |m| }

  /** What attribute_enumerate takes for an attribute, whatever its length */
  predicate Within(m: seq<Byte>, p: nat) { p + 2 <= |m| && p + m[p + 1] as int <= |m| }

  /** The length of its data, in the unsigned 64-bit arithmetic of the source */
  function DataLen(length: Byte): nat { if length >= 2 then length - 2 else 0x1_0000_0000_0000_0000 + length - 2 }

  /** The enumeration from position `p` on comes to a Message-Authenticator or to an end: no
      attribute of length 0 holds it up before. */
  ghost predicate AdvancesAt(m: seq<Byte>, p: nat)
    decreases |m| - p
  {
    Within(m, p) && m[p] != MESSAGE_AUTHENTICATOR ==> 0 < m[p + 1] && AdvancesAt(m, p + m[p + 1] as int)
  }

  /** Every attribute from position `p` on that lies within the message has a length of at least
      2: add writes no others. */
  ghost predicate SoundAt(m: seq<Byte>, p: nat)
    decreases |m| - p
  {
    Within(m, p) ==> 2 <= m[p + 1] && SoundAt(m, p + m[p + 1] as int)
  }

  /** The attributes from position `p` on */
  ghost function AttrsAt(m: seq<Byte>, p: nat): seq<Attr>
    decreases |m| - p
  {
    if AttrAt(m, p) then var q := p + m[p + 1] as int; [Attr(m[p], m[p + 2..q])] + AttrsAt(m, q) else []
  }

  lemma {:induction false} WholeIsSound(m: seq<Byte>, p: nat)
    requires p <= |m| && Whole(m[p..])
    ensures SoundAt(m, p)
    decreases |m| - p
  {
    var s := m[p..];
    if s != [] {
      assert m[p + 1] == s[1] && s[s[1]..] == m[p + s[1] as int..];
      WholeIsSound(m, p + s[1] as int);
    }
  }

  lemma {:induction false} SoundAdvances(m: seq<Byte>, p: nat)
    requires SoundAt(m, p)
    ensures AdvancesAt(m, p)
    decreases |m| - p
  {
    if Within(m, p) {
      SoundAdvances(m, p + m[p + 1] as int);
    }
  }

  lemma NextAttr(m: seq<Byte>, p: nat)
    requires SoundAt(m, p)
    ensures if Within(m, p) then
              var q := p + m[p + 1] as int;
              && p + 2 + DataLen(m[p + 1]) == q && SoundAt(m, q)
              && AttrsAt(m, p) != [] && AttrsAt(m, p)[0] == Attr(m[p], m[p + 2..q])
              && AttrsAt(m, p)[1..] == AttrsAt(m, q)
            else AttrsAt(m, p) == []
  {
  }

  lemma FirstAttr(m: seq<Byte>, p: nat)
    requires p <= |m|
    ensures HasAttr(m[p..]) <==> AttrAt(m, p)
    ensures AttrAt(m, p) ==> var q := p + m[p + 1] as int; Split(m[p..]) == [Attr(m[p], m[p + 2..q])] + Split(m[q..])
  {
    var s := m[p..];
    if AttrAt(m, p) {
      var n := s[1] as int;
      assert s[2..n] == m[p + 2..p + n] && s[n..] == m[p + n..];
    }
  }

  lemma {:induction false} AttrsAtIsSplit(m: seq<Byte>, p: nat)
    requires p <= |m|
    ensures AttrsAt(m, p) == Split(m[p..])
    decreases |m| - p
  {
    FirstAttr(m, p);
    if AttrAt(m, p) {
      var q := p + m[p + 1] as int;
      AttrsAtIsSplit(m, q);
      assert AttrsAt(m, p) == [Attr(m[p], m[p + 2..q])] + AttrsAt(m, q);
    } else {
      assert AttrsAt(m, p) == [];
    }
  }

  /** The header has no part in it. */
  lemma {:induction false} SameBodies(m: seq<Byte>, r: seq<Byte>, p: nat)
    requires |m| == |r| && HEADER <= p && HEADER <= |m| && m[HEADER..] == r[HEADER..]
    ensures SoundAt(m, p) ==> SoundAt(r, p)
    ensures AdvancesAt(m, p) ==> AdvancesAt(r, p)
    decreases |m| - p
  {
    if p + 2 <= |m| {
      assert m[p] == m[HEADER..][p - HEADER] == r[p] && m[p + 1] == m[HEADER..][p + 1 - HEADER] == r[p + 1];
      if Within(m, p) && m[p + 1] > 0 {
        SameBodies(m, r, p + m[p + 1] as int);
      }
    }
  }

  // ---------------------------------------------------------------- building

  function Create(code: Byte): (m: seq<Byte>)
    ensures WellFormed(m) && Code(m) == code && m[HEADER..] == []
  {
    WithLength([code] + Zeros(19))
  }

  predicate Fits(m: seq<Byte>, n: nat) { |m| + 2 + n < 0x1_0000 }

  /** Appending one attribute (the second half of add) */
  function Append(m: seq<Byte>, kind: Byte, data: seq<Byte>): (r: seq<Byte>)
    requires WellFormed(m) && Fits(m, |Cut(data)|)
    ensures WellFormed(r)
    ensures r[..2] == m[..2] && r[4..] == m[4..] + Encode(Attr(kind, Cut(data)))
  {
    var r := m + Encode(Attr(kind, Cut(data)));
    assert r[4..] == m[4..] + Encode(Attr(kind, Cut(data)));
    WithLength(r)
  }

  function Body(m: seq<Byte>): seq<Byte>
    requires |m| >= HEADER
  {
    m[HEADER..]
  }

  lemma AppendBody(m: seq<Byte>, kind: Byte, data: seq<Byte>)
    requires WellFormed(m) && Fits(m, |Cut(data)|)
    ensures var r := Append(m, kind, data);
            && Code(r) == Code(m) && Authenticator(r) == Authenticator(m)
            && Body(r) == Body(m) + Encode(Attr(kind, Cut(data)))
  {
    var r := Append(m, kind, data);
    assert r[0] == r[..2][0] && m[0] == m[..2][0];
    assert r[4..20] == r[4..][..16] && m[4..20] == m[4..][..16];
    assert r[20..] == r[4..][16..] && m[20..] == m[4..][16..];
  }

  /** One more attribute at the end, and nothing else, is what enumerating sees of an add. */
  lemma AppendSplits(m: seq<Byte>, kind: Byte, data: seq<Byte>)
    requires WellFormed(m) && Whole(Body(m)) && Fits(m, |Cut(data)|)
    ensures var r := Append(m, kind, data);
            && |r| == |m| + 2 + |Cut(data)| && Whole(Body(r))
            && Split(Body(r)) == Split(Body(m)) + [Attr(kind, Cut(data))]
  {
    var r := Append(m, kind, data);
    AppendBody(m, kind, data);
    SplitAppend(Body(m), Attr(kind, Cut(data)));
    assert |r| == 4 + |r[4..]|;
  }

  /** Padded to whole blocks with null bytes */
  function NullPadded(data: seq<Byte>): (p: seq<Byte>)
    ensures |p| % HASH_SIZE == 0 && data <= p && |p| < |data| + HASH_SIZE
    ensures forall i | |data| <= i < |p| :: p[i] == 0
  {
    data + Zeros(PadLen(|data|, HASH_SIZE))
  }

  // ---------------------------------------------------------------- signing

  /** HMAC-MD5 with the shared key: verify_signature accepts what get_signature made. */
  datatype Signer = Signer(sign: seq<Byte> -> Block, verify: (seq<Byte>, seq<Byte>) -> bool)

  ghost predicate LawfulSigner(s: Signer) { forall m :: s.verify(m, s.sign(m)) }

  datatype Rng = NoRng | Broken | Yields(bytes: Block)

  function RequestAuthenticator(reqAuth: Option<Block>): Block {
    if reqAuth.Some? then reqAuth.value else Zeros(HASH_SIZE)
  }

  /** The password attribute is encrypted under the authenticator in the message. */
  function WithPassword(m: seq<Byte>, password: seq<Byte>, secret: seq<Byte>, md5: Hasher): (r: seq<Byte>)
    requires WellFormed(m) && |password| % HASH_SIZE == 0 && Fits(m, |Cut(password)|)
    ensures WellFormed(r)
  {
    if password == [] then m
    else Append(m, USER_PASSWORD, Encrypt(md5, secret, Seed(md5, secret, Authenticator(m), []), password))
  }

  /** The Message-Authenticator is computed over the message with 16 null bytes in its place. */
  function WithMac(m: seq<Byte>, signer: Signer): (r: seq<Byte>)
    requires WellFormed(m) && Fits(m, HASH_SIZE)
    ensures |r| == |m| + 18
  {
    var z := Append(m, MESSAGE_AUTHENTICATOR, Zeros(HASH_SIZE));
    assert |z| == 4 + |z[4..]|;
    z[..|z| - HASH_SIZE] + signer.sign(z)
  }

  /** sign; None when the generator of the request authenticator fails. */
  function Signed(m: seq<Byte>, password: seq<Byte>, reqAuth: Option<Block>, secret: seq<Byte>,
                  md5: Hasher, signer: Signer, rng: Rng, msgAuth: bool): Option<seq<Byte>>
    requires WellFormed(m) && |password| % HASH_SIZE == 0 && |m| + 2 + |password| + 18 < 0x1_0000
  {
    if rng.Broken? then None
    else
      var m0 := WithAuthenticator(m, if rng.Yields? then rng.bytes else RequestAuthenticator(reqAuth));
      SameLength(m, m0);
      var m1 := WithPassword(m0, password, secret, md5);
      PasswordLength(m0, password, secret, md5);
      var m2 := if msgAuth then WithMac(m1, signer) else m1;
      Some(if rng.Yields? then m2 else WithAuthenticator(m2, md5(m2 + secret)))
  }

  lemma SameLength(m: seq<Byte>, r: seq<Byte>)
    requires |m| >= HEADER && |r| == |m| && r[..4] == m[..4]
    ensures Length(r) == Length(m) && Code(r) == Code(m)
  {
    assert r[2..4] == r[..4][2..4] && m[2..4] == m[..4][2..4];
    assert r[0] == r[..4][0] && m[0] == m[..4][0];
  }

  lemma PasswordLength(m: seq<Byte>, password: seq<Byte>, secret: seq<Byte>, md5: Hasher)
    requires WellFormed(m) && |password| % HASH_SIZE == 0 && Fits(m, |Cut(password)|)
    ensures |WithPassword(m, password, secret, md5)| <= |m| + 2 + |password|
  {
    if password != [] {
      var r := WithPassword(m, password, secret, md5);
      assert |r| == 4 + |r[4..]|;
    }
  }

  // ---------------------------------------------------------------- verifying

  datatype Scan = Found | Missing(eap: bool) | Bad(msg: seq<Byte>)

  function Blank(m: seq<Byte>, from: nat, n: nat): (r: seq<Byte>)
    requires from + n <= |m|
    ensures |r| == |m|
  {
    m[..from] + Zeros(n) + m[from + n..]
  }

  /** The attribute loop of verify from position `p` on.  `Bad` holds what the buffer looks like
      when verify gives up. */
  function ScanMac(m: seq<Byte>, p: nat, eap: bool, signer: Signer): Scan
    decreases |m| - p
  {
    if !Within(m, p) then Missing(eap)
    else if m[p] != MESSAGE_AUTHENTICATOR then
      // on length 0 the loop does not end
      if m[p + 1] == 0 then Missing(eap)
      else ScanMac(m, p + m[p + 1] as int, eap || m[p] == EAP_MESSAGE, signer)
    else if m[p + 1] as int != HASH_SIZE + 2 then Bad(m)
    else
      var blank := Blank(m, p + 2, HASH_SIZE);
      if signer.verify(blank, m[p + 2..p + 2 + HASH_SIZE]) then Found else Bad(blank)
  }

  /** verify: its result and the message it leaves behind */
  function Verified(m: seq<Byte>, reqAuth: Option<Block>, secret: seq<Byte>, md5: Hasher,
                    signer: Signer): (bool, seq<Byte>)
    requires WellFormed(m)
  {
    var response := Code(m) != ACCESS_REQUEST;
    var m1 := if response then WithAuthenticator(m, RequestAuthenticator(reqAuth)) else m;
    if response && md5(m1 + secret) != Authenticator(m) then (false, m1)
    else
      match ScanMac(m1, HEADER, false, signer)
      case Found => (true, m)
      case Missing(eap) => (!eap, m)
      case Bad(left) => (false, left)
  }

  /** Kinds that occur among the attributes */
  predicate Has(attrs: seq<Attr>, kind: Byte) { exists a | a in attrs :: a.kind == kind }

  /** Between two positions there are whole attributes, and these are their kinds. */
  ghost predicate WholeTo(m: seq<Byte>, p: nat, q: nat)
    requires q <= |m|
    decreases q - p
  {
    p == q || (p + 2 <= q && 2 <= m[p + 1] && p + m[p + 1] as int <= q && WholeTo(m, p + m[p + 1] as int, q))
  }

  ghost function KindsTo(m: seq<Byte>, p: nat, q: nat): set<Byte>
    requires q <= |m| && WholeTo(m, p, q)
    decreases q - p
  {
    if p == q then {} else {m[p]} + KindsTo(m, p + m[p + 1] as int, q)
  }

  lemma {:induction false} KindsByPosition(m: seq<Byte>, p: nat, q: nat)
    requires p <= q <= |m| && Whole(m[p..q])
    ensures WholeTo(m, p, q) && forall k :: k in KindsTo(m, p, q) <==> Has(Split(m[p..q]), k)
    decreases q - p
  {
    var s := m[p..q];
    if s != [] {
      var n := s[1] as int;
      assert m[p] == s[0] && m[p + 1] == s[1] && s[n..] == m[p + n..q];
      KindsByPosition(m, p + n, q);
      forall k: Byte ensures Has(Split(s), k) <==> s[0] == k || Has(Split(s[n..]), k) {
        HasCons(Attr(s[0], s[2..n]), Split(s[n..]), k);
      }
    }
  }

  /** The scan passes over attributes that are no Message-Authenticator. */
  lemma {:induction false} ScanPasses(m: seq<Byte>, p: nat, q: nat, eap: bool, signer: Signer)
    requires p <= q <= |m| && WholeTo(m, p, q) && MESSAGE_AUTHENTICATOR !in KindsTo(m, p, q)
    ensures ScanMac(m, p, eap, signer) == ScanMac(m, q, eap || EAP_MESSAGE in KindsTo(m, p, q), signer)
    decreases q - p
  {
    if p < q {
      ScanPasses(m, p + m[p + 1] as int, q, eap || m[p] == EAP_MESSAGE, signer);
    }
  }

  lemma HasCons(a: Attr, attrs: seq<Attr>, kind: Byte)
    ensures Has([a] + attrs, kind) <==> a.kind == kind || Has(attrs, kind)
  {
    assert a in [a] + attrs && forall x | x in attrs :: x in [a] + attrs;
  }

  // ---------------------------------------------------------------- verify accepts what sign made

  ghost predicate Plain(m: seq<Byte>) {
    WellFormed(m) && Whole(Body(m)) && !Has(Split(Body(m)), MESSAGE_AUTHENTICATOR)
  }

  lemma MacLayout(m: seq<Byte>, signer: Signer)
    requires WellFormed(m) && Fits(m, HASH_SIZE)
    ensures var z := Append(m, MESSAGE_AUTHENTICATOR, Zeros(HASH_SIZE));
            var r := WithMac(m, signer);
            && |z| == |r| == |m| + 18
            && r[..4] == z[..4] && Code(r) == Code(m) && Authenticator(r) == Authenticator(m) && Length(r) == |r|
            && r[HEADER..|m|] == Body(m)
            && r[|m|..] == [MESSAGE_AUTHENTICATOR, 18] + signer.sign(z)
            && Blank(r, |m| + 2, HASH_SIZE) == z
  {
    var z := Append(m, MESSAGE_AUTHENTICATOR, Zeros(HASH_SIZE));
    var r := WithMac(m, signer);
    AppendBody(m, MESSAGE_AUTHENTICATOR, Zeros(HASH_SIZE));
    var zero := Zeros(HASH_SIZE);
    assert Cut(zero) == zero;
    assert Body(z) == Body(m) + ([MESSAGE_AUTHENTICATOR, 18] + zero);
    assert z == z[..HEADER] + Body(z);
    assert z[HEADER..|m|] == Body(m) && z[|m|..|m| + 2] == [MESSAGE_AUTHENTICATOR, 18] && z[|m| + 2..] == zero;
    assert r[..|m| + 2] == z[..|m| + 2] && r[|m| + 2..] == signer.sign(z);
    assert r[..HEADER] == r[..|m| + 2][..HEADER] && z[..HEADER] == z[..|m| + 2][..HEADER];
    assert r[..4] == r[..HEADER][..4] && z[..4] == z[..HEADER][..4];
    assert r[4..20] == r[..HEADER][4..20] && z[4..20] == z[..HEADER][4..20];
    SameLength(z, r);
    assert r[HEADER..|m|] == r[..|m| + 2][HEADER..|m|] && z[HEADER..|m|] == z[..|m| + 2][HEADER..|m|];
    assert r[|m|..|m| + 2] == r[..|m| + 2][|m|..] && z[|m|..|m| + 2] == z[..|m| + 2][|m|..];
  }

  lemma MacSplits(m: seq<Byte>, signer: Signer)
    requires WellFormed(m) && Whole(Body(m)) && Fits(m, HASH_SIZE)
    ensures var r := WithMac(m, signer);
            && Whole(Body(r)) && |Split(Body(r))| == |Split(Body(m))| + 1 && Split(Body(m)) <= Split(Body(r))
            && Split(Body(r))[|Split(Body(m))|].kind == MESSAGE_AUTHENTICATOR
            && |Split(Body(r))[|Split(Body(m))|].value| == HASH_SIZE
            && Authenticator(r) == Authenticator(m)
  {
    var r := WithMac(m, signer);
    var mac := signer.sign(Append(m, MESSAGE_AUTHENTICATOR, Zeros(HASH_SIZE)));
    MacLayout(m, signer);
    assert Body(r) == r[HEADER..|m|] + r[|m|..];
    SplitAppend(Body(m), Attr(MESSAGE_AUTHENTICATOR, mac));
  }

  lemma MacIsFound(m: seq<Byte>, signer: Signer)
    requires Plain(m) && Fits(m, HASH_SIZE) && LawfulSigner(signer)
    ensures ScanMac(WithMac(m, signer), HEADER, false, signer) == Found
  {
    var r := WithMac(m, signer);
    var z := Append(m, MESSAGE_AUTHENTICATOR, Zeros(HASH_SIZE));
    MacLayout(m, signer);
    KindsByPosition(r, HEADER, |m|);
    ScanPasses(r, HEADER, |m|, false, signer);
    var s := r[|m|..];
    assert r[|m|] == s[0] == MESSAGE_AUTHENTICATOR && r[|m| + 1] == s[1] == 18;
    assert r[|m| + 2..|m| + 2 + HASH_SIZE] == signer.sign(z) by {
      assert s[2..] == signer.sign(z);
    }
    assert signer.verify(z, signer.sign(z));
  }

  lemma NoMacIsMissing(m: seq<Byte>, signer: Signer)
    requires Plain(m)
    ensures ScanMac(m, HEADER, false, signer) == Missing(Has(Split(Body(m)), EAP_MESSAGE))
  {
    assert m[HEADER..|m|] == Body(m);
    KindsByPosition(m, HEADER, |m|);
    ScanPasses(m, HEADER, |m|, false, signer);
  }

  lemma PasswordStaysPlain(m: seq<Byte>, password: seq<Byte>, secret: seq<Byte>, md5: Hasher)
    requires Plain(m) && |password| % HASH_SIZE == 0 && Fits(m, |Cut(password)|)
    ensures var r := WithPassword(m, password, secret, md5);
            && Plain(r) && Code(r) == Code(m) && Authenticator(r) == Authenticator(m)
            && (Has(Split(Body(r)), EAP_MESSAGE) <==> Has(Split(Body(m)), EAP_MESSAGE))
  {
    if password != [] {
      var cipher := Encrypt(md5, secret, Seed(md5, secret, Authenticator(m), []), password);
      var a := Attr(USER_PASSWORD, Cut(cipher));
      AppendBody(m, USER_PASSWORD, cipher);
      SplitAppend(Body(m), a);
      forall kind: Byte | kind != USER_PASSWORD
        ensures Has(Split(Body(m)) + [a], kind) <==> Has(Split(Body(m)), kind)
      {
        if Has(Split(Body(m)), kind) {
          var x :| x in Split(Body(m)) && x.kind == kind;
          assert x in Split(Body(m)) + [a];
        }
      }
    }
  }

  lemma AuthenticatorKeepsPlain(m: seq<Byte>, a: Block)
    requires Plain(m)
    ensures Plain(WithAuthenticator(m, a)) && Code(WithAuthenticator(m, a)) == Code(m)
    ensures Body(WithAuthenticator(m, a)) == Body(m)
  {
    SameLength(m, WithAuthenticator(m, a));
  }

  lemma AuthenticatorRestores(m: seq<Byte>, a: Block)
    requires |m| >= HEADER
    ensures WithAuthenticator(WithAuthenticator(m, a), Authenticator(m)) == m
  {
    assert m == m[..4] + m[4..20] + m[20..];
  }

  /** The message before the response authenticator is filled in: it scans as it should. */
  lemma SignedScan(m1: seq<Byte>, signer: Signer, msgAuth: bool)
    requires Plain(m1) && Fits(m1, HASH_SIZE) && LawfulSigner(signer)
    ensures var m2 := if msgAuth then WithMac(m1, signer) else m1;
            && WellFormed(m2) && Code(m2) == Code(m1) && Authenticator(m2) == Authenticator(m1)
            && ScanMac(m2, HEADER, false, signer)
               == if msgAuth then Found else Missing(Has(Split(Body(m1)), EAP_MESSAGE))
  {
    if msgAuth {
      MacLayout(m1, signer);
      MacIsFound(m1, signer);
    } else {
      NoMacIsMissing(m1, signer);
    }
  }

  /** What sign makes can be enumerated and verified. */
  lemma SignedIsSound(m: seq<Byte>, password: seq<Byte>, reqAuth: Option<Block>, secret: seq<Byte>,
                      md5: Hasher, signer: Signer, rng: Rng, msgAuth: bool)
    requires Plain(m) && |password| % HASH_SIZE == 0 && |m| + 2 + |password| + 18 < 0x1_0000 && !rng.Broken?
    ensures var signed := Signed(m, password, reqAuth, secret, md5, signer, rng, msgAuth);
            signed.Some? && SoundAt(signed.value, HEADER) && AdvancesAt(signed.value, HEADER)
  {
    var start := if rng.Yields? then rng.bytes else RequestAuthenticator(reqAuth);
    var m0 := WithAuthenticator(m, start);
    AuthenticatorKeepsPlain(m, start);
    var m1 := WithPassword(m0, password, secret, md5);
    PasswordStaysPlain(m0, password, secret, md5);
    PasswordLength(m0, password, secret, md5);
    var m2 := if msgAuth then WithMac(m1, signer) else m1;
    if msgAuth {
      MacSplits(m1, signer);
    }
    WholeIsSound(m2, HEADER);
    SoundAdvances(m2, HEADER);
    SameBodies(m2, WithAuthenticator(m2, md5(m2 + secret)), HEADER);
  }

  /** verify accepts what sign made with the same secret and request authenticator, and leaves
      every byte of it as it was, if and only if there is a Message-Authenticator or no
      EAP-Message.  Access-Requests are signed with a random authenticator, all others without. */
  lemma SignThenVerify(m: seq<Byte>, password: seq<Byte>, reqAuth: Option<Block>, secret: seq<Byte>,
                       md5: Hasher, signer: Signer, rng: Rng, msgAuth: bool)
    requires Plain(m) && |password| % HASH_SIZE == 0 && |m| + 2 + |password| + 18 < 0x1_0000 && LawfulSigner(signer)
    requires if Code(m) == ACCESS_REQUEST then rng.Yields? else rng.NoRng?
    ensures var signed := Signed(m, password, reqAuth, secret, md5, signer, rng, msgAuth);
            && signed.Some? && WellFormed(signed.value)
            && SoundAt(signed.value, HEADER) && AdvancesAt(signed.value, HEADER)
            && Verified(signed.value, reqAuth, secret, md5, signer)
               == (msgAuth || !Has(Split(Body(m)), EAP_MESSAGE), signed.value)
  {
    var start := if rng.Yields? then rng.bytes else RequestAuthenticator(reqAuth);
    var m0 := WithAuthenticator(m, start);
    AuthenticatorKeepsPlain(m, start);
    var m1 := WithPassword(m0, password, secret, md5);
    PasswordStaysPlain(m0, password, secret, md5);
    PasswordLength(m0, password, secret, md5);
    SignedScan(m1, signer, msgAuth);
    var m2 := if msgAuth then WithMac(m1, signer) else m1;
    if rng.NoRng? {
      var answer := md5(m2 + secret);
      var m3 := WithAuthenticator(m2, answer);
      SameLength(m2, m3);
      AuthenticatorRestores(m2, answer);
    }
    SignedIsSound(m, password, reqAuth, secret, md5, signer, rng, msgAuth);
  }

  /** An answer with one EAP-Message and nothing else */
  function EapAnswer(): (m: seq<Byte>)
    ensures WellFormed(m)
  {
    Append(Create(2), EAP_MESSAGE, [7])
  }

  /** Signed without a Message-Authenticator it is refused. */
  lemma EapNeedsMac(secret: seq<Byte>, md5: Hasher, signer: Signer)
    requires LawfulSigner(signer)
    ensures |EapAnswer()| == 23
    ensures var signed := Signed(EapAnswer(), [], None, secret, md5, signer, NoRng, false);
            signed.Some? && !Verified(signed.value, None, secret, md5, signer).0
  {
    var m := EapAnswer();
    AppendSplits(Create(2), EAP_MESSAGE, [7]);
    AppendBody(Create(2), EAP_MESSAGE, [7]);
    assert Body(Create(2)) == [] && Cut([7]) == [7];
    assert Split(Body(m)) == [] + [Attr(EAP_MESSAGE, [7])];
    assert Split(Body(m))[0].kind == EAP_MESSAGE;
    SignThenVerify(m, [], None, secret, md5, signer, NoRng, false);
  }

  // ---------------------------------------------------------------- add

  /** add keeps the first password back until the message is signed. */
  predicate Defers(password: seq<Byte>, kind: Byte) { kind == USER_PASSWORD && password == [] }

  /** add on a message and its deferred password */
  function Added(m: seq<Byte>, password: seq<Byte>, kind: Byte, data: seq<Byte>): (r: (seq<Byte>, seq<Byte>))
    requires WellFormed(m) && (Defers(password, kind) || Fits(m, |Cut(data)|))
    ensures WellFormed(r.0)
  {
    if Defers(password, kind) then (m, NullPadded(data)) else (Append(m, kind, data), password)
  }

  // ---------------------------------------------------------------- implementation

  /** The attribute enumerator, a cursor into a message */
  class Enumerator {
    const msg: seq<Byte>
    var next: nat
    var left: nat

    ghost predicate Valid()
      reads this
    {
      next + left == |msg|
    }

    constructor (msg: seq<Byte>)
      requires WellFormed(msg)
      ensures Valid() && this.msg == msg
      ensures AttrsAt(msg, next) == AttrsAt(msg, HEADER)
      ensures if Within(msg, HEADER) then next == HEADER else next >= HEADER && !Within(msg, next)
    {
      this.msg := msg;
      next := if Length(msg) < HEADER + 2 then |msg| else HEADER;
      left := if Length(msg) < HEADER + 2 then 0 else Length(msg) - HEADER;
    }

    /** Yields the kind, the position and the length of the data of the next attribute. */
    method Enumerate() returns (ok: bool, kind: Byte, at: nat, len: nat)
      requires Valid()
      modifies this
      ensures Valid()
      ensures ok <==> Within(msg, old(next))
      ensures ok ==> kind == msg[old(next)] && at == old(next) + 2 && len == DataLen(msg[old(next) + 1])
                     && next == old(next) + msg[old(next) + 1] as int
      ensures !ok ==> next == old(next)
    {
      kind, at, len := 0, 0, 0;
      if left == 0 {
        return false, kind, at, len;
      }
      if left < 2 || left < msg[next + 1] as int {
        return false, kind, at, len;
      }
      kind := msg[next];
      var length := msg[next + 1] as int;
      at := next + 2;
      len := (length - 2) % 0x1_0000_0000_0000_0000;
      left := left - length;
      next := next + length;
      return true, kind, at, len;
    }
  }

  /** Enumerates attributes up to the first Message-Authenticator. */
  method FirstMac(m: seq<Byte>, ghost signer: Signer) returns (found: bool, at: nat, len: nat, hasEap: bool)
    requires WellFormed(m) && AdvancesAt(m, HEADER)
    ensures !found ==> ScanMac(m, HEADER, false, signer) == Missing(hasEap)
    ensures found ==> 2 <= at && Within(m, at - 2) && m[at - 2] == MESSAGE_AUTHENTICATOR && len == DataLen(m[at - 1])
                      && ScanMac(m, HEADER, false, signer) == ScanMac(m, at - 2, hasEap, signer)
  {
    hasEap := false;
    var e := new Enumerator(m);
    while true
      invariant e.msg == m && e.Valid() && AdvancesAt(m, e.next)
      invariant ScanMac(m, HEADER, false, signer) == ScanMac(m, e.next, hasEap, signer)
      decreases e.left
    {
      var kind;
      found, kind, at, len := e.Enumerate();
      if !found || kind == MESSAGE_AUTHENTICATOR {
        return;
      }
      hasEap := hasEap || kind == EAP_MESSAGE;
    }
  }

  class Message {
    var msg: seq<Byte>
    var password: seq<Byte>

    ghost predicate Valid()
      reads this
    {
      WellFormed(msg) && Whole(Body(msg)) && |password| % HASH_SIZE == 0
    }

    /** radius_message_parse: anything but a buffer of the length its header declares is refused. */
    static method Parse(data: seq<Byte>) returns (m: Message?)
      ensures m != null <==> WellFormed(data)
      ensures m != null ==> fresh(m) && m.msg == data && m.password == []
    {
      if |data| < HEADER || Length(data) != |data| {
        return null;
      }
      m := new Message(0);
      m.msg := data;
    }

    /** radius_message_create */
    constructor (code: Byte)
      ensures Valid() && msg == Create(code) && password == []
    {
      msg, password := Create(code), [];
    }

    /** The length field is 16 bits wide and add does not check it: callers keep messages short. */
    method Add(kind: Byte, data: seq<Byte>)
      requires Valid() && (Defers(password, kind) || Fits(msg, |Cut(data)|))
      modifies this
      ensures Valid() && (msg, password) == Added(old(msg), old(password), kind, data)
    {
      if kind == USER_PASSWORD && |password| == 0 {
        password := data + Zeros(PadLen(|data|, HASH_SIZE));
        return;
      }
      var value := data[..Min(|data|, MAX_ATTRIBUTE)];
      assert Cut(value) == value;
      AppendAttribute(kind, value);
    }

    method AppendAttribute(kind: Byte, value: seq<Byte>)
      requires Valid() && |value| <= MAX_ATTRIBUTE && Fits(msg, |value|)
      modifies `msg
      ensures Valid() && msg == Append(old(msg), kind, value)
    {
      AppendSplits(msg, kind, value);
      var length := Length(msg) + 2 + |value|;
      msg := msg + ([kind, (|value| + 2) as Byte] + value);
      msg := msg[..2] + Be16(length) + msg[4..];
      assert msg == Append(old(msg), kind, value);
    }

    method Sign(reqAuth: Option<Block>, secret: seq<Byte>, md5: Hasher, signer: Signer, rng: Rng, msgAuth: bool)
      returns (ok: bool)
      requires Valid() && |msg| + 2 + |password| + 18 < 0x1_0000
      modifies this
      ensures ok <==> Signed(old(msg), old(password), reqAuth, secret, md5, signer, rng, msgAuth).Some?
      ensures ok ==> Some(msg) == Signed(old(msg), old(password), reqAuth, secret, md5, signer, rng, msgAuth)
      ensures ok ==> password == []
      ensures !ok ==> msg == old(msg) && password == old(password)
    {
      if rng.Broken? {
        return false;
      }
      var start := if rng.Yields? then rng.bytes else RequestAuthenticator(reqAuth);
      SameLength(msg, WithAuthenticator(msg, start));
      msg := WithAuthenticator(msg, start);
      if |password| > 0 {
        EmitPassword(secret, md5);
      }
      PasswordLength(WithAuthenticator(old(msg), start), old(password), secret, md5);
      if msgAuth {
        AddMac(signer);
      }
      if !rng.Yields? {
        msg := WithAuthenticator(msg, md5(msg + secret));
      }
      return true;
    }

    /** Adds the Message-Authenticator with 16 null bytes and writes the signature over them. */
    method AddMac(signer: Signer)
      requires Valid() && Fits(msg, HASH_SIZE)
      modifies `msg
      ensures msg == WithMac(old(msg), signer)
    {
      var zeros := Zeros(HASH_SIZE);
      AppendAttribute(MESSAGE_AUTHENTICATOR, zeros);
      msg := msg[..|msg| - HASH_SIZE] + signer.sign(msg);
    }

    /** Encrypts the password in place and adds it as an attribute. */
    method EmitPassword(secret: seq<Byte>, md5: Hasher)
      requires Valid() && password != [] && Fits(msg, |password|)
      modifies this
      ensures Valid() && password == [] && msg == WithPassword(old(msg), old(password), secret, md5)
    {
      var buffer := new Byte[|password|](i requires 0 <= i < |password| reads this => password[i]);
      assert buffer[..] == password;
      var ok := Crypt(md5, secret, Authenticator(msg), [], buffer, buffer);
      assert ok;
      Add(USER_PASSWORD, buffer[..]);
      password := [];
    }

    /** Verifies the Message-Authenticator at `at` over the message with that value blanked; the
        value is put back only if it is right. */
    method CheckMac(at: nat, signer: Signer) returns (ok: bool)
      requires at + HASH_SIZE <= |msg|
      modifies `msg
      ensures ok <==> signer.verify(Blank(old(msg), at, HASH_SIZE), old(msg)[at..at + HASH_SIZE])
      ensures msg == if ok then old(msg) else Blank(old(msg), at, HASH_SIZE)
    {
      var buf := msg[at..at + HASH_SIZE];
      msg := msg[..at] + Zeros(HASH_SIZE) + msg[at + HASH_SIZE..];
      ok := signer.verify(msg, buf);
      if ok {
        msg := msg[..at] + buf + msg[at + HASH_SIZE..];
        assert msg == old(msg);
      }
    }

    /** The attribute loop of verify, on the buffer that holds the request authenticator */
    method ScanMessageAuthenticator(signer: Signer) returns (ok: bool, hasEap: bool, hasAuth: bool)
      requires WellFormed(msg) && AdvancesAt(msg, HEADER)
      modifies `msg
      ensures var scan := ScanMac(old(msg), HEADER, false, signer);
              && (ok <==> !scan.Bad?)
              && (ok ==> msg == old(msg) && (hasAuth <==> scan.Found?) && (scan.Missing? ==> hasEap == scan.eap))
              && (!ok ==> msg == scan.msg)
    {
      var found, at, len;
      found, at, len, hasEap := FirstMac(msg, signer);
      hasAuth := false;
      if !found {
        return true, hasEap, hasAuth;
      }
      if len != HASH_SIZE {
        return false, hasEap, hasAuth;
      }
      hasAuth := CheckMac(at, signer);
      return hasAuth, hasEap, hasAuth;
    }

    method Verify(reqAuth: Option<Block>, secret: seq<Byte>, md5: Hasher, signer: Signer) returns (ok: bool)
      requires WellFormed(msg) && AdvancesAt(msg, HEADER)
      modifies `msg
      ensures (ok, msg) == Verified(old(msg), reqAuth, secret, md5, signer)
    {
      var response := Code(msg) != ACCESS_REQUEST;
      var resAuth := Authenticator(msg);
      if response {
        SameLength(msg, WithAuthenticator(msg, RequestAuthenticator(reqAuth)));
        SameBodies(msg, WithAuthenticator(msg, RequestAuthenticator(reqAuth)), HEADER);
        msg := WithAuthenticator(msg, RequestAuthenticator(reqAuth));
        if md5(msg + secret) != resAuth {
          return false;
        }
      }
      var hasEap, hasAuth;
      ok, hasEap, hasAuth := ScanMessageAuthenticator(signer);
      if !ok {
        return false;
      }
      if response {
        AuthenticatorRestores(old(msg), RequestAuthenticator(reqAuth));
        msg := WithAuthenticator(msg, resAuth);
      }
      return !hasEap || hasAuth;
    }
  }
}
