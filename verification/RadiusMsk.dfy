/** The MPPE keys in a RADIUS Access-Accept (radius_socket.c): decrypting them and deriving the
    master session key. */
module RadiusMsk {
  import opened Bytes
  import opened RadiusCrypt
  import opened RadiusMessage
  import opened RadiusBuilding

  const PEN_MICROSOFT: U32 := 311
  const MS_MPPE_SEND_KEY: Byte := 16
  const MS_MPPE_RECV_KEY: Byte := 17
  const KEY_HEADER: nat := 8
  const MSK_SIZE: nat := 64

  // ---------------------------------------------------------------- specification

  /** The attribute is a Microsoft vendor attribute holding a key of this type. */
  predicate IsKey(a: Attr, kind: Byte) {
    && a.kind == VENDOR_SPECIFIC && |a.value| > KEY_HEADER
    && FromBe32(a.value) == PEN_MICROSOFT && a.value[5] as int == |a.value| - 4
    && a.value[4] == kind
  }

  /** Section 2.4.2 of RFC 2548: vendor 311, the type and length of the key attribute, and a salt and
      at least one byte of key behind them */
  lemma IsKeyExactly(a: Attr, kind: Byte)
    ensures IsKey(a, kind) <==>
            && a.kind == 26 && |a.value| >= 9 && a.value[0] == 0 && a.value[1] == 0 && a.value[2] == 1
            && a.value[3] == 55 && a.value[4] == kind && a.value[5] as int + 4 == |a.value|
  {
  }

  /** The length byte of the plain text is removed, and so is everything after the key. */
  function Unwrap(plain: seq<Byte>): (key: seq<Byte>) {
    if plain == [] || plain[0] as int >= |plain| then [] else plain[1..1 + plain[0] as int]
  }

  /** Decrypting the key in a vendor attribute; empty when that fails. */
  function KeyOf(a: Attr, auth: Block, secret: seq<Byte>, md5: Hasher): (key: seq<Byte>)
    requires |a.value| > KEY_HEADER
  {
    var cipher := a.value[KEY_HEADER..];
    if |cipher| % HASH_SIZE != 0 then []
    else Unwrap(Decrypt(md5, secret, Seed(md5, secret, auth, a.value[6..8]), cipher))
  }

  /** Behind the vendor, type, length and salt of the attribute are whole blocks that decrypt, under the
      authenticator of the request and the salt, to the length of the key, the key and padding. */
  lemma KeyExactly(a: Attr, auth: Block, secret: seq<Byte>, md5: Hasher) returns (plain: seq<Byte>)
    requires |a.value| >= 9
    ensures if |a.value| % 16 != 8 then KeyOf(a, auth, secret, md5) == []
            else
              && IsChain(md5, secret, md5(secret + auth + a.value[6..8]), plain, a.value[8..])
              && |plain| == |a.value| - 8
              && KeyOf(a, auth, secret, md5) == if plain[0] as int >= |plain| then [] else plain[1..plain[0] as int + 1]
  {
    plain := [];
    if |a.value| % 16 == 8 {
      var seed := md5(secret + auth + a.value[6..8]);
      plain := Decrypt(md5, secret, seed, a.value[8..]);
      DecryptIsChain(md5, secret, seed, a.value[8..]);
    }
  }

  /** An attribute with a key of this type replaces the one found before, also when it does not
      decrypt. */
  function Newer(a: Attr, kind: Byte, before: seq<Byte>, auth: Block, secret: seq<Byte>, md5: Hasher): seq<Byte> {
    if IsKey(a, kind) then KeyOf(a, auth, secret, md5) else before
  }

  function LastKey(attrs: seq<Attr>, kind: Byte, before: seq<Byte>, auth: Block, secret: seq<Byte>,
                   md5: Hasher): seq<Byte> {
    if attrs == [] then before
    else LastKey(attrs[1..], kind, Newer(attrs[0], kind, before, auth, secret, md5), auth, secret, md5)
  }

  /** The master session key: nothing unless both keys are there and not empty. */
  function Msk(recv: seq<Byte>, send: seq<Byte>): (msk: seq<Byte>)
    ensures msk == [] <==> recv == [] || send == []
    ensures msk != [] ==> recv + send <= msk && |msk| == Max(64, |recv| + |send|)
    ensures forall i | |recv| + |send| <= i < |msk| :: msk[i] == 0
  {
    if recv == [] || send == [] then []
    else recv + send + Zeros(Max(0, MSK_SIZE - |send| - |recv|))
  }

  // ---------------------------------------------------------------- encryption

  /** Section 2.4.2 of RFC 2548: length byte, key and null bytes up to whole blocks */
  function KeyPlain(key: seq<Byte>): (p: seq<Byte>)
    requires |key| < 0x100
    ensures |p| % HASH_SIZE == 0 && |p| > |key|
  {
    NullPadded([|key| as Byte] + key)
  }

  /** An MS-MPPE-Send-Key or MS-MPPE-Recv-Key attribute */
  function KeyAttr(kind: Byte, salt: seq<Byte>, key: seq<Byte>, auth: Block, secret: seq<Byte>, md5: Hasher): (a: Attr)
    requires |salt| == 2 && |key| <= 239
    ensures |a.value| <= MAX_ATTRIBUTE
  {
    var plain := KeyPlain(key);
    BlocksFit(|key| + 1);
    var cipher := Encrypt(md5, secret, Seed(md5, secret, auth, salt), plain);
    Attr(VENDOR_SPECIFIC, Be32(PEN_MICROSOFT) + [kind, (|cipher| + 4) as Byte] + salt + cipher)
  }

  lemma BlocksFit(n: nat)
    requires n <= 240
    ensures n + PadLen(n, HASH_SIZE) <= 240
  {
  }

  lemma UnwrapsKey(key: seq<Byte>)
    requires |key| < 0x100
    ensures Unwrap(KeyPlain(key)) == key
  {
    var s := [|key| as Byte] + key;
    var p := KeyPlain(key);
    assert s <= p;
    assert p[0] == s[0] && p[1..1 + |key|] == s[1..];
  }

  lemma KeyComesBack(kind: Byte, salt: seq<Byte>, key: seq<Byte>, auth: Block, secret: seq<Byte>, md5: Hasher)
    requires |salt| == 2 && |key| <= 239
    ensures var a := KeyAttr(kind, salt, key, auth, secret, md5);
            && (forall k: Byte :: IsKey(a, k) <==> k == kind)
            && KeyOf(a, auth, secret, md5) == key
  {
    var seed := Seed(md5, secret, auth, salt);
    var plain := KeyPlain(key);
    var cipher := Encrypt(md5, secret, seed, plain);
    var a := KeyAttr(kind, salt, key, auth, secret, md5);
    var head := Be32(PEN_MICROSOFT) + [kind, (|cipher| + 4) as Byte];
    assert a.value == Be32(PEN_MICROSOFT) + a.value[4..];
    Be32RoundTrip(PEN_MICROSOFT, a.value[4..]);
    assert a.value[6..8] == salt && a.value[8..] == cipher && a.value[4] == kind;
    DecryptInvertsEncrypt(md5, secret, seed, plain);
    UnwrapsKey(key);
  }

  /** No later attribute takes the place of the key at `i`. */
  ghost predicate IsLast(attrs: seq<Attr>, kind: Byte, i: nat) {
    i < |attrs| && IsKey(attrs[i], kind) && forall j | i < j < |attrs| :: !IsKey(attrs[j], kind)
  }

  lemma {:induction false} NoNewerKey(attrs: seq<Attr>, kind: Byte, before: seq<Byte>, auth: Block,
                                    secret: seq<Byte>, md5: Hasher)
    requires forall a | a in attrs :: !IsKey(a, kind)
    ensures LastKey(attrs, kind, before, auth, secret, md5) == before
  {
    if attrs != [] {
      assert attrs[0] in attrs;
      NoNewerKey(attrs[1..], kind, before, auth, secret, md5);
    }
  }

  lemma {:induction false} LastKeyIs(attrs: seq<Attr>, kind: Byte, i: nat, before: seq<Byte>,
                                   auth: Block, secret: seq<Byte>, md5: Hasher)
    requires IsLast(attrs, kind, i)
    ensures LastKey(attrs, kind, before, auth, secret, md5) == KeyOf(attrs[i], auth, secret, md5)
    decreases i
  {
    var now := Newer(attrs[0], kind, before, auth, secret, md5);
    if i == 0 {
      NoNewerKey(attrs[1..], kind, now, auth, secret, md5);
    } else {
      LastKeyIs(attrs[1..], kind, i - 1, now, auth, secret, md5);
    }
  }

  /** decrypt_msk on the attributes of a response */
  function DerivedMsk(response: seq<Byte>, auth: Block, secret: seq<Byte>, md5: Hasher): seq<Byte>
    requires |response| >= HEADER
  {
    var attrs := Split(Body(response));
    Msk(LastKey(attrs, MS_MPPE_RECV_KEY, [], auth, secret, md5),
        LastKey(attrs, MS_MPPE_SEND_KEY, [], auth, secret, md5))
  }

  /** Passwords, stored or appended, are no keys. */
  lemma {:induction false} PasswordsAreNoKeys(password: seq<Byte>, attrs: seq<Attr>, kind: Byte, before: seq<Byte>,
                                              auth: Block, secret: seq<Byte>, md5: Hasher)
    ensures LastKey(Kept(password, attrs), kind, before, auth, secret, md5)
            == LastKey(CutAll(attrs), kind, before, auth, secret, md5)
    decreases attrs
  {
    if attrs != [] {
      var now := Newer(CutAttr(attrs[0]), kind, before, auth, secret, md5);
      assert CutAll(attrs)[0] == CutAttr(attrs[0]) && CutAll(attrs)[1..] == CutAll(attrs[1..]);
      if Defers(password, attrs[0].kind) {
        PasswordsAreNoKeys(NullPadded(attrs[0].value), attrs[1..], kind, now, auth, secret, md5);
      } else {
        PasswordsAreNoKeys(password, attrs[1..], kind, now, auth, secret, md5);
      }
    }
  }

  /** What add calls put into a response is what the client derives the key from. */
  lemma DerivedFromAttrs(code: Byte, attrs: seq<Attr>, auth: Block, secret: seq<Byte>, md5: Hasher)
    requires HEADER + TotalSize(Kept([], attrs)) < 0x1_0000
    ensures |Create(code)| == HEADER
    ensures var cut := CutAll(attrs);
            DerivedMsk(AddAll(Create(code), [], attrs).0, auth, secret, md5)
            == Msk(LastKey(cut, MS_MPPE_RECV_KEY, [], auth, secret, md5),
                   LastKey(cut, MS_MPPE_SEND_KEY, [], auth, secret, md5))
  {
    var m := Create(code);
    assert |m| == HEADER + |m[HEADER..]|;
    AddAllKeeps(m, [], attrs);
    assert Split(Body(m)) + Kept([], attrs) == Kept([], attrs);
    PasswordsAreNoKeys([], attrs, MS_MPPE_RECV_KEY, [], auth, secret, md5);
    PasswordsAreNoKeys([], attrs, MS_MPPE_SEND_KEY, [], auth, secret, md5);
  }

  /** Whatever else a server adds to its answer: if its last send and receive keys are encrypted
      as RFC 2548 asks for, the client derives the key it meant, and nothing if one of them is
      empty. */
  lemma MskComesBack(code: Byte, attrs: seq<Attr>, i: nat, j: nat, sendSalt: seq<Byte>, send: seq<Byte>,
                     recvSalt: seq<Byte>, recv: seq<Byte>, auth: Block, secret: seq<Byte>, md5: Hasher)
    requires HEADER + TotalSize(Kept([], attrs)) < 0x1_0000
    requires |sendSalt| == |recvSalt| == 2 && |send| <= 239 && |recv| <= 239
    requires IsLast(CutAll(attrs), MS_MPPE_SEND_KEY, i) && IsLast(CutAll(attrs), MS_MPPE_RECV_KEY, j)
    requires attrs[i] == KeyAttr(MS_MPPE_SEND_KEY, sendSalt, send, auth, secret, md5)
    requires attrs[j] == KeyAttr(MS_MPPE_RECV_KEY, recvSalt, recv, auth, secret, md5)
    ensures |Create(code)| == HEADER
    ensures SoundAt(AddAll(Create(code), [], attrs).0, HEADER)
    ensures DerivedMsk(AddAll(Create(code), [], attrs).0, auth, secret, md5)
            == if recv == [] || send == [] then [] else recv + send + Zeros(Max(0, MSK_SIZE - |send| - |recv|))
  {
    KeyIs(attrs, MS_MPPE_SEND_KEY, i, sendSalt, send, auth, secret, md5);
    KeyIs(attrs, MS_MPPE_RECV_KEY, j, recvSalt, recv, auth, secret, md5);
    DerivedFromAttrs(code, attrs, auth, secret, md5);
    assert |Create(code)| == HEADER + |Create(code)[HEADER..]|;
    AddAllKeeps(Create(code), [], attrs);
  }

  lemma KeyIs(attrs: seq<Attr>, kind: Byte, i: nat, salt: seq<Byte>, key: seq<Byte>,
              auth: Block, secret: seq<Byte>, md5: Hasher)
    requires |salt| == 2 && |key| <= 239
    requires IsLast(CutAll(attrs), kind, i) && attrs[i] == KeyAttr(kind, salt, key, auth, secret, md5)
    ensures LastKey(CutAll(attrs), kind, [], auth, secret, md5) == key
  {
    assert Cut(attrs[i].value) == attrs[i].value;
    KeyComesBack(kind, salt, key, auth, secret, md5);
    LastKeyIs(CutAll(attrs), kind, i, [], auth, secret, md5);
  }

  // ---------------------------------------------------------------- implementation

  class Socket {
    const secret: seq<Byte>
    const md5: Hasher

    constructor (secret: seq<Byte>, md5: Hasher)
      ensures this.secret == secret && this.md5 == md5
    {
      this.secret, this.md5 := secret, md5;
    }

    method DecryptMppeKey(salt: seq<Byte>, cipher: seq<Byte>, auth: Block) returns (key: seq<Byte>)
      requires |cipher| > 0
      ensures key == if |cipher| % HASH_SIZE != 0 then []
                     else Unwrap(Decrypt(md5, secret, Seed(md5, secret, auth, salt), cipher))
    {
      var input := new Byte[|cipher|](i requires 0 <= i < |cipher| => cipher[i]);
      var output := new Byte[|cipher|];
      assert input[..] == cipher;
      var ok := Crypt(md5, secret, auth, salt, input, output);
      if !ok || output[0] as int >= output.Length {
        return [];
      }
      return output[1..1 + output[0] as int];
    }

    /** The key of this type in an attribute, or the one found before. */
    method TakeKey(kind: Byte, data: seq<Byte>, auth: Block, wanted: Byte, before: seq<Byte>) returns (key: seq<Byte>)
      ensures key == Newer(Attr(kind, data), wanted, before, auth, secret, md5)
    {
      key := before;
      if kind == VENDOR_SPECIFIC && |data| > KEY_HEADER {
        if FromBe32(data) == PEN_MICROSOFT && data[5] as int == |data| - 4 && data[4] == wanted {
          key := DecryptMppeKey(data[6..8], data[KEY_HEADER..], auth);
        }
      }
    }

    /** What is left to look at, and the keys found before, lead to the keys of the response. */
    ghost predicate LeadsTo(attrs: seq<Attr>, send: seq<Byte>, recv: seq<Byte>, auth: Block, all: seq<Attr>) {
      && LastKey(attrs, MS_MPPE_SEND_KEY, send, auth, secret, md5)
         == LastKey(all, MS_MPPE_SEND_KEY, [], auth, secret, md5)
      && LastKey(attrs, MS_MPPE_RECV_KEY, recv, auth, secret, md5)
         == LastKey(all, MS_MPPE_RECV_KEY, [], auth, secret, md5)
    }

    /** One round of decrypt_msk */
    method TakeKeys(kind: Byte, data: seq<Byte>, auth: Block, send0: seq<Byte>, recv0: seq<Byte>,
                    ghost attrs: seq<Attr>, ghost all: seq<Attr>) returns (send: seq<Byte>, recv: seq<Byte>)
      requires attrs != [] && attrs[0] == Attr(kind, data) && LeadsTo(attrs, send0, recv0, auth, all)
      ensures LeadsTo(attrs[1..], send, recv, auth, all)
    {
      send := TakeKey(kind, data, auth, MS_MPPE_SEND_KEY, send0);
      recv := TakeKey(kind, data, auth, MS_MPPE_RECV_KEY, recv0);
    }

    /** The loop of decrypt_msk */
    method FindKeys(auth: Block, response: seq<Byte>) returns (send: seq<Byte>, recv: seq<Byte>)
      requires WellFormed(response) && SoundAt(response, HEADER)
      ensures send == LastKey(AttrsAt(response, HEADER), MS_MPPE_SEND_KEY, [], auth, secret, md5)
      ensures recv == LastKey(AttrsAt(response, HEADER), MS_MPPE_RECV_KEY, [], auth, secret, md5)
    {
      send, recv := [], [];
      var e := new Enumerator(response);
      ghost var all := AttrsAt(response, HEADER);
      var more := true;
      while more
        invariant e.Valid() && e.msg == response && SoundAt(response, e.next)
        invariant LeadsTo(AttrsAt(response, e.next), send, recv, auth, all)
        invariant !more ==> AttrsAt(response, e.next) == []
        decreases more, e.left
      {
        more, send, recv := NextKeys(e, auth, send, recv, all);
      }
    }

    /** The next attribute, and what it does to the keys; without one all keys have been found. */
    method NextKeys(e: Enumerator, auth: Block, send0: seq<Byte>, recv0: seq<Byte>, ghost all: seq<Attr>)
      returns (more: bool, send: seq<Byte>, recv: seq<Byte>)
      requires e.Valid() && SoundAt(e.msg, e.next) && LeadsTo(AttrsAt(e.msg, e.next), send0, recv0, auth, all)
      modifies e
      ensures e.Valid() && SoundAt(e.msg, e.next) && e.left <= old(e.left)
      ensures LeadsTo(AttrsAt(e.msg, e.next), send, recv, auth, all)
      ensures if more then e.left < old(e.left) else AttrsAt(e.msg, e.next) == []
    {
      ghost var attrs := AttrsAt(e.msg, e.next);
      NextAttr(e.msg, e.next);
      var kind, at, len;
      more, kind, at, len := e.Enumerate();
      send, recv := send0, recv0;
      if more {
        send, recv := TakeKeys(kind, e.msg[at..at + len], auth, send, recv, attrs, all);
      }
    }

    method DecryptMsk(request: seq<Byte>, response: seq<Byte>) returns (msk: seq<Byte>)
      requires WellFormed(request) && WellFormed(response) && SoundAt(response, HEADER)
      ensures msk == DerivedMsk(response, Authenticator(request), secret, md5)
    {
      AttrsAtIsSplit(response, HEADER);
      var send, recv := FindKeys(Authenticator(request), response);
      if send != [] && recv != [] {
        var pad := [];
        if |send| + |recv| < MSK_SIZE {
          pad := Zeros(MSK_SIZE - |send| - |recv|);
        }
        return recv + send + pad;
      }
      return [];
    }
  }
}
