/** What sign makes and what verify accepts (radius_message.c), byte by byte: section 3 of RFC 2865 and
    section 3.2 of RFC 3579. */
module RadiusLayout {
  import opened Bytes
  import opened RadiusCrypt
  import opened RadiusMessage
  import Lists

  // ---------------------------------------------------------------- messages

  /** Code and identifier, the length of all of it, the authenticator, and the attributes */
  ghost function Laid(start: seq<Byte>, authenticator: Block, attributes: seq<Byte>): seq<Byte>
    requires |start| == 2 && |attributes| < 0x1_0000 - 20
  {
    var n := 20 + |attributes|;
    start + [n / 0x100, n % 0x100] + authenticator + attributes
  }

  lemma WellFormedExactly(m: seq<Byte>)
    requires 20 <= |m| < 0x1_0000
    ensures WellFormed(m) <==> m == Laid(m[..2], m[4..20], m[20..])
  {
    var r := Laid(m[..2], m[4..20], m[20..]);
    assert r[2..4] == Be16(|m|) + [];
    Be16RoundTrip(|m|, []);
    assert m == m[..2] + m[2..4] + m[4..20] + m[20..];
    assert m[2..4] == [m[2], m[3]];
  }

  lemma CreateExactly(code: Byte)
    ensures Create(code) == Laid([code, 0], Zeros(16), [])
  {
  }

  lemma AppendExactly(start: seq<Byte>, a: Block, body: seq<Byte>, kind: Byte, value: seq<Byte>)
    requires |start| == 2 && |value| <= 253 && 22 + |body| + |value| < 0x1_0000
    ensures WellFormed(Laid(start, a, body)) && Cut(value) == value
    ensures Append(Laid(start, a, body), kind, value) == Laid(start, a, body + ([kind, |value| + 2] + value))
  {
    var m := Laid(start, a, body);
    assert m[..2] == start && m[4..20] == a && m[20..] == body;
    WellFormedExactly(m);
    var r := Append(m, kind, value);
    assert m[4..] == a + body && Encode(Attr(kind, value)) == [kind, |value| + 2] + value;
    Lists.Assoc(a, body, [kind, |value| + 2] + value);
    assert |r| == 4 + |r[4..]|;
    assert r[4..20] == r[4..][..16] && r[20..] == r[4..][16..];
    WellFormedExactly(r);
  }

  lemma AuthenticatorExactly(start: seq<Byte>, a: Block, b: Block, body: seq<Byte>)
    requires |start| == 2 && |body| < 0x1_0000 - 20
    ensures WithAuthenticator(Laid(start, a, body), b) == Laid(start, b, body)
  {
  }

  // ---------------------------------------------------------------- sign

  /** The password as an attribute: encrypted under a hash of the secret and the authenticator, and cut */
  ghost predicate IsPassword(s: seq<Byte>, password: seq<Byte>, a: Block, secret: seq<Byte>, md5: Hasher) {
    if password == [] then s == []
    else exists cipher :: IsChain(md5, secret, md5(secret + a), password, cipher) && IsCut(s, cipher)
  }

  ghost predicate IsCut(s: seq<Byte>, cipher: seq<Byte>) {
    if |cipher| <= 253 then s == [2, |cipher| + 2] + cipher else s == [2, 255] + cipher[..253]
  }

  /** The Message-Authenticator, over the message with 16 null bytes in its place */
  ghost predicate IsMac(s: seq<Byte>, start: seq<Byte>, a: Block, body: seq<Byte>, signer: Signer)
    requires |start| == 2 && |body| + 18 < 0x1_0000 - 20
  {
    s == [80, 18] + signer.sign(Laid(start, a, body + ([80, 18] + Zeros(16))))
  }

  /** What is signed: all attributes, then the password, then the Message-Authenticator */
  ghost predicate IsBody(body: seq<Byte>, m: seq<Byte>, password: seq<Byte>, a: Block, secret: seq<Byte>,
                         md5: Hasher, signer: Signer, msgAuth: bool)
    requires |m| >= 20 && |m| + 2 + |password| + 18 < 0x1_0000
  {
    exists pass, mac | |pass| <= 2 + |password| ::
      && body == m[20..] + pass + mac && IsPassword(pass, password, a, secret, md5)
      && if msgAuth then IsMac(mac, m[..2], a, m[20..] + pass, signer) else mac == []
  }

  /** sign: a request gets a random authenticator, anything else the hash of the message with the
      authenticator of the request in its place. */
  lemma SignedExactly(m: seq<Byte>, password: seq<Byte>, reqAuth: Option<Block>, secret: seq<Byte>,
                      md5: Hasher, signer: Signer, rng: Rng, msgAuth: bool) returns (body: seq<Byte>)
    requires WellFormed(m) && |password| % 16 == 0 && |m| + 2 + |password| + 18 < 0x1_0000 && !rng.Broken?
    ensures |body| < 0x1_0000 - 20
    ensures var a := if rng.Yields? then rng.bytes else if reqAuth.Some? then reqAuth.value else Zeros(16);
            && IsBody(body, m, password, a, secret, md5, signer, msgAuth)
            && Signed(m, password, reqAuth, secret, md5, signer, rng, msgAuth)
               == Some(Laid(m[..2], if rng.Yields? then a else md5(Laid(m[..2], a, body) + secret), body))
  {
    var a := if rng.Yields? then rng.bytes else if reqAuth.Some? then reqAuth.value else Zeros(16);
    WellFormedExactly(m);
    AuthenticatorExactly(m[..2], m[4..20], a, m[20..]);
    body := BodyExactly(m, password, a, secret, md5, signer, msgAuth);
    AuthenticatorExactly(m[..2], a, md5(Laid(m[..2], a, body) + secret), body);
  }

  /** The message before the response authenticator is filled in */
  lemma BodyExactly(m: seq<Byte>, password: seq<Byte>, a: Block, secret: seq<Byte>, md5: Hasher, signer: Signer,
                    msgAuth: bool) returns (body: seq<Byte>)
    requires |m| >= 20 && |password| % 16 == 0 && |m| + 2 + |password| + 18 < 0x1_0000
    ensures |body| < 0x1_0000 - 20 && IsBody(body, m, password, a, secret, md5, signer, msgAuth)
    ensures WellFormed(Laid(m[..2], a, m[20..]))
    ensures var m1 := WithPassword(Laid(m[..2], a, m[20..]), password, secret, md5);
            Fits(m1, 16) && (if msgAuth then WithMac(m1, signer) else m1) == Laid(m[..2], a, body)
  {
    var pass := PasswordExactly(m[..2], a, m[20..], password, secret, md5);
    var mac := [];
    if msgAuth {
      mac := MacExactly(m[..2], a, m[20..] + pass, signer);
    }
    body := m[20..] + pass + mac;
    assert m[20..] + pass + [] == m[20..] + pass;
  }

  lemma PasswordExactly(start: seq<Byte>, a: Block, body: seq<Byte>, password: seq<Byte>, secret: seq<Byte>,
                        md5: Hasher) returns (pass: seq<Byte>)
    requires |start| == 2 && |password| % 16 == 0 && 22 + |body| + |password| < 0x1_0000
    ensures |pass| <= 2 + |password| && IsPassword(pass, password, a, secret, md5)
    ensures WellFormed(Laid(start, a, body))
    ensures WithPassword(Laid(start, a, body), password, secret, md5) == Laid(start, a, body + pass)
  {
    var m := Laid(start, a, body);
    if password == [] {
      pass := [];
      AppendExactly(start, a, body, 2, []);
      assert body + pass == body;
    } else {
      var cipher := Encrypt(md5, secret, md5(secret + a), password);
      assert secret + a + [] == secret + a && m[4..20] == a;
      EncryptIsChain(md5, secret, md5(secret + a), password);
      var value := Cut(cipher);
      AppendExactly(start, a, body, 2, value);
      pass := [2, |value| + 2] + value;
      assert IsCut(pass, cipher);
    }
  }

  lemma MacExactly(start: seq<Byte>, a: Block, body: seq<Byte>, signer: Signer) returns (mac: seq<Byte>)
    requires |start| == 2 && 38 + |body| < 0x1_0000
    ensures |mac| == 18 && IsMac(mac, start, a, body, signer) && WellFormed(Laid(start, a, body))
    ensures WithMac(Laid(start, a, body), signer) == Laid(start, a, body + mac)
  {
    AppendExactly(start, a, body, 80, Zeros(16));
    var z := Laid(start, a, body + ([80, 18] + Zeros(16)));
    mac := [80, 18] + signer.sign(z);
    assert Laid(start, a, body + mac) == z[..|z| - 16] + signer.sign(z);
  }

  // ---------------------------------------------------------------- what is verified

  /** The message as its sender has signed it: an answer with the authenticator of the request */
  ghost function AsSigned(m: seq<Byte>, reqAuth: Option<Block>): seq<Byte>
    requires |m| >= 20
  {
    if m[0] == 1 then m else m[..4] + (if reqAuth.Some? then reqAuth.value else Zeros(16)) + m[20..]
  }

  /** An answer is authenticated by the secret. */
  ghost predicate AnswerIsGenuine(m: seq<Byte>, reqAuth: Option<Block>, secret: seq<Byte>, md5: Hasher)
    requires |m| >= 20
  {
    m[0] == 1 || m[4..20] == md5(AsSigned(m, reqAuth) + secret)
  }

  // ---------------------------------------------------------------- the attributes

  /** An attribute lies within the message. */
  ghost predicate Lies(m: seq<Byte>, p: nat) { p + 2 <= |m| && p + m[p + 1] as int <= |m| }

  /** The attribute at position `p` is no Message-Authenticator, and `q` is where it ends. */
  ghost predicate Leads(m: seq<Byte>, p: nat, q: nat) {
    Lies(m, p) && m[p] != 80 && q == p + m[p + 1] as int
  }

  /** The positions of the attributes up to the first Message-Authenticator, or up to the end of what
      lies within the message */
  ghost predicate IsWalk(m: seq<Byte>, ps: seq<nat>) {
    && ps != [] && ps[0] == 20
    && (forall i | 0 <= i < |ps| - 1 :: Leads(m, ps[i], ps[i + 1]))
    && (Lies(m, ps[|ps| - 1]) ==> m[ps[|ps| - 1]] == 80)
  }

  /** There is one for every message that verify comes to an end with. */
  lemma EveryWalk(m: seq<Byte>) returns (ps: seq<nat>)
    requires AdvancesAt(m, HEADER)
    ensures IsWalk(m, ps)
  {
    ps := [20];
    while Lies(m, ps[|ps| - 1]) && m[ps[|ps| - 1]] != 80
      invariant ps != [] && ps[0] == 20 && AdvancesAt(m, ps[|ps| - 1])
      invariant forall i | 0 <= i < |ps| - 1 :: Leads(m, ps[i], ps[i + 1])
      decreases |m| - ps[|ps| - 1]
    {
      var p := ps[|ps| - 1];
      ps := ps + [p + m[p + 1] as int];
    }
  }

  /** The value of the Message-Authenticator at position `p` is null. */
  ghost function Nulled(m: seq<Byte>, p: nat): seq<Byte>
    requires p + 18 <= |m|
  {
    m[..p + 2] + Zeros(16) + m[p + 18..]
  }

  /** A Message-Authenticator of the right length that the signer accepts */
  ghost predicate IsRight(m: seq<Byte>, p: nat, signer: Signer)
    requires Lies(m, p)
  {
    m[p + 1] == 18 && signer.verify(Nulled(m, p), m[p + 2..p + 18])
  }

  ghost predicate IsEap(m: seq<Byte>, p: nat) { p < |m| && m[p] == 79 }

  /** One of the positions from index `i` on, but the last one, holds an EAP-Message. */
  ghost predicate EapFrom(m: seq<Byte>, ps: seq<nat>, i: nat) { exists k | i <= k < |ps| - 1 :: IsEap(m, ps[k]) }

  /** What scanning the attributes comes to */
  ghost function ScanOf(m: seq<Byte>, ps: seq<nat>, eap: bool, signer: Signer): Scan
    requires ps != []
  {
    var p := ps[|ps| - 1];
    if !Lies(m, p) then Missing(eap)
    else if IsRight(m, p, signer) then Found
    else if m[p + 1] == 18 then Bad(Nulled(m, p))
    else Bad(m)
  }

  lemma {:induction false} ScanExactly(m: seq<Byte>, ps: seq<nat>, i: nat, eap: bool, signer: Signer)
    requires IsWalk(m, ps) && i < |ps|
    ensures ScanMac(m, ps[i], eap, signer) == ScanOf(m, ps, eap || EapFrom(m, ps, i), signer)
    decreases |ps| - i
  {
    if i < |ps| - 1 {
      assert Leads(m, ps[i], ps[i + 1]);
      Moves(m, ps, i);
      ScanExactly(m, ps, i + 1, eap || m[ps[i]] == 79, signer);
      assert EapFrom(m, ps, i) <==> IsEap(m, ps[i]) || EapFrom(m, ps, i + 1);
    }
  }

  /** No attribute of the walk has length 0: it would be the last one. */
  lemma {:induction false} Moves(m: seq<Byte>, ps: seq<nat>, i: nat)
    requires IsWalk(m, ps) && i < |ps| - 1
    ensures Leads(m, ps[i], ps[i + 1]) && ps[i + 1] > ps[i]
    decreases |ps| - i
  {
    assert Leads(m, ps[i], ps[i + 1]);
    if i + 1 < |ps| - 1 {
      Moves(m, ps, i + 1);
      assert Leads(m, ps[i + 1], ps[i + 2]);
    }
  }

  // ---------------------------------------------------------------- verify

  /** The Message-Authenticator, if there is one, is right; an EAP-Message needs one. */
  ghost predicate MacIsGenuine(m: seq<Byte>, ps: seq<nat>, signer: Signer)
    requires ps != []
  {
    var p := ps[|ps| - 1];
    if Lies(m, p) then IsRight(m, p, signer) else forall i | 0 <= i < |ps| - 1 :: !IsEap(m, ps[i])
  }

  /** A message that is refused keeps the authenticator of the request if the one it had or its
      Message-Authenticator is wrong, which is null then; all others are as they were. */
  ghost function Leftover(m: seq<Byte>, n: seq<Byte>, ps: seq<nat>, answers: bool, signer: Signer): seq<Byte>
    requires ps != []
  {
    var p := ps[|ps| - 1];
    if !answers then n
    else if !Lies(n, p) || IsRight(n, p, signer) then m
    else if n[p + 1] == 18 then Nulled(n, p)
    else n
  }

  /** verify accepts a message exactly if the response authenticator of an answer is the hash of what
      its sender has signed, and the first Message-Authenticator is right over that with its value
      null; without one there may be no EAP-Message.  What is left in the buffer is said by Leftover. */
  lemma VerifiesExactly(m: seq<Byte>, ps: seq<nat>, reqAuth: Option<Block>, secret: seq<Byte>, md5: Hasher,
                        signer: Signer)
    requires WellFormed(m) && IsWalk(m, ps)
    ensures var (ok, left) := Verified(m, reqAuth, secret, md5, signer);
            var n, answers := AsSigned(m, reqAuth), AnswerIsGenuine(m, reqAuth, secret, md5);
            && (ok <==> answers && MacIsGenuine(n, ps, signer))
            && left == Leftover(m, n, ps, answers, signer)
  {
    var n := AsSigned(m, reqAuth);
    AsSignedKeeps(m, reqAuth, ps);
    ScanExactly(n, ps, 0, false, signer);
    GenuineExactly(n, ps, signer);
  }

  lemma AsSignedKeeps(m: seq<Byte>, reqAuth: Option<Block>, ps: seq<nat>)
    requires WellFormed(m) && IsWalk(m, ps)
    ensures var n := AsSigned(m, reqAuth);
            && n == (if Code(m) != ACCESS_REQUEST then WithAuthenticator(m, RequestAuthenticator(reqAuth)) else m)
            && IsWalk(n, ps)
  {
    var n := AsSigned(m, reqAuth);
    BehindHeader(m, ps);
    assert |n| == |m| && forall p | 20 <= p < |m| :: n[p] == m[p];
    forall i | 0 <= i < |ps| - 1 ensures Leads(n, ps[i], ps[i + 1]) {
      assert Leads(m, ps[i], ps[i + 1]) && ps[i] >= 20;
    }
  }

  lemma {:induction false} BehindHeader(m: seq<Byte>, ps: seq<nat>)
    requires IsWalk(m, ps)
    ensures forall i | 0 <= i < |ps| :: ps[i] >= 20
  {
    for n := 1 to |ps|
      invariant forall i | 0 <= i < n :: ps[i] >= 20
    {
      assert Leads(m, ps[n - 1], ps[n]);
    }
  }

  lemma GenuineExactly(m: seq<Byte>, ps: seq<nat>, signer: Signer)
    requires IsWalk(m, ps)
    ensures MacIsGenuine(m, ps, signer) <==>
            ScanOf(m, ps, EapFrom(m, ps, 0), signer) in {Found, Missing(false)}
  {
  }

  /** An answer whose authenticator is not that hash is refused, whatever it holds. */
  lemma ForgeryIsRefused(m: seq<Byte>, reqAuth: Option<Block>, secret: seq<Byte>, md5: Hasher, signer: Signer)
    requires WellFormed(m) && !AnswerIsGenuine(m, reqAuth, secret, md5)
    ensures Verified(m, reqAuth, secret, md5, signer) == (false, AsSigned(m, reqAuth))
  {
    assert AsSigned(m, reqAuth) == WithAuthenticator(m, RequestAuthenticator(reqAuth));
  }
}
