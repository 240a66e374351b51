/** What any sequence of add calls makes of a RADIUS message, and what sign makes of the password
    among them (radius_message.c). */
module RadiusBuilding {
  import opened Bytes
  import opened Lists
  import opened RadiusCrypt
  import opened RadiusMessage

  // ---------------------------------------------------------------- a sequence of add calls

  function CutAttr(a: Attr): (r: Attr)
    ensures |r.value| <= MAX_ATTRIBUTE
  {
    Attr(a.kind, Cut(a.value))
  }

  function CutAll(attrs: seq<Attr>): (r: seq<Attr>)
    ensures |r| == |attrs| && forall i | 0 <= i < |attrs| :: r[i] == CutAttr(attrs[i])
  {
    seq(|attrs|, i requires 0 <= i < |attrs| => CutAttr(attrs[i]))
  }

  /** The attributes that are appended, given the password stored before */
  function Kept(password: seq<Byte>, attrs: seq<Attr>): seq<Attr>
    decreases attrs
  {
    if attrs == [] then []
    else if Defers(password, attrs[0].kind) then Kept(NullPadded(attrs[0].value), attrs[1..])
    else [CutAttr(attrs[0])] + Kept(password, attrs[1..])
  }

  function TotalSize(attrs: seq<Attr>): nat {
    if attrs == [] then 0 else 2 + |attrs[0].value| + TotalSize(attrs[1..])
  }

  /** The message and the stored password after a sequence of add calls */
  function AddAll(m: seq<Byte>, password: seq<Byte>, attrs: seq<Attr>): (r: (seq<Byte>, seq<Byte>))
    requires WellFormed(m) && |m| + TotalSize(Kept(password, attrs)) < 0x1_0000
    ensures WellFormed(r.0)
    decreases attrs
  {
    if attrs == [] then (m, password)
    else
      AddedSize(m, password, attrs);
      var (m1, password1) := Added(m, password, attrs[0].kind, attrs[0].value);
      AddAll(m1, password1, attrs[1..])
  }

  lemma AddedSize(m: seq<Byte>, password: seq<Byte>, attrs: seq<Attr>)
    requires WellFormed(m) && attrs != [] && |m| + TotalSize(Kept(password, attrs)) < 0x1_0000
    ensures Defers(password, attrs[0].kind) || Fits(m, |Cut(attrs[0].value)|)
    ensures var r := Added(m, password, attrs[0].kind, attrs[0].value);
            |r.0| + TotalSize(Kept(r.1, attrs[1..])) == |m| + TotalSize(Kept(password, attrs))
  {
    if !Defers(password, attrs[0].kind) {
      var kept := Kept(password, attrs);
      assert kept[0] == CutAttr(attrs[0]) && kept[1..] == Kept(password, attrs[1..]);
      var r := Append(m, attrs[0].kind, attrs[0].value);
      assert |r| == 4 + |r[4..]|;
    }
  }

  // ---------------------------------------------------------------- what is kept back

  function WithoutPasswords(attrs: seq<Attr>): seq<Attr> {
    if attrs == [] then []
    else (if attrs[0].kind == USER_PASSWORD then [] else [attrs[0]]) + WithoutPasswords(attrs[1..])
  }

  /** The first password that is not empty, or the number of attributes */
  function FirstPassword(attrs: seq<Attr>): (k: nat)
    ensures k <= |attrs|
    ensures k < |attrs| ==> attrs[k].kind == USER_PASSWORD && attrs[k].value != []
    ensures forall i | 0 <= i < k :: attrs[i].kind == USER_PASSWORD ==> attrs[i].value == []
  {
    if attrs == [] || (attrs[0].kind == USER_PASSWORD && attrs[0].value != []) then 0
    else
      assert forall i | 0 < i < |attrs| :: attrs[i] == attrs[1..][i - 1];
      1 + FirstPassword(attrs[1..])
  }

  function Stored(attrs: seq<Attr>): seq<Byte> {
    var k := FirstPassword(attrs);
    if k < |attrs| then NullPadded(attrs[k].value) else []
  }

  /** All but the password that is stored, and the empty ones before it */
  function Emitted(attrs: seq<Attr>): seq<Attr> {
    var k := FirstPassword(attrs);
    WithoutPasswords(attrs[..k]) + if k < |attrs| then attrs[k + 1..] else []
  }

  lemma {:induction false} KeptWithPassword(password: seq<Byte>, attrs: seq<Attr>)
    requires password != []
    ensures Kept(password, attrs) == CutAll(attrs)
  {
    if attrs != [] {
      KeptWithPassword(password, attrs[1..]);
    }
  }

  lemma EmittedStep(attrs: seq<Attr>)
    requires attrs != [] && FirstPassword(attrs) > 0
    ensures Stored(attrs) == Stored(attrs[1..])
    ensures Emitted(attrs) == (if attrs[0].kind == USER_PASSWORD then [] else [attrs[0]]) + Emitted(attrs[1..])
  {
    var k := FirstPassword(attrs);
    var rest, front := attrs[1..], attrs[..k];
    assert FirstPassword(rest) == k - 1;
    assert front[0] == attrs[0] && front[1..] == rest[..k - 1];
    assert k < |attrs| ==> rest[k - 1] == attrs[k] && rest[k..] == attrs[k + 1..];
    Assoc(if attrs[0].kind == USER_PASSWORD then [] else [attrs[0]], WithoutPasswords(rest[..k - 1]),
          if k < |attrs| then attrs[k + 1..] else []);
  }

  lemma {:induction false} KeptExactly(attrs: seq<Attr>)
    ensures Kept([], attrs) == CutAll(Emitted(attrs))
  {
    if attrs != [] {
      if FirstPassword(attrs) == 0 {
        assert NullPadded(attrs[0].value) != [];
        KeptWithPassword(NullPadded(attrs[0].value), attrs[1..]);
        assert Emitted(attrs) == attrs[1..];
      } else {
        KeptExactly(attrs[1..]);
        EmittedStep(attrs);
        if attrs[0].kind == USER_PASSWORD {
          assert NullPadded(attrs[0].value) == [];
        }
      }
    }
  }

  /** One add moves one attribute from what is still to be added to what is there. */
  lemma AddStep(m: seq<Byte>, password: seq<Byte>, attrs: seq<Attr>)
    requires WellFormed(m) && Whole(Body(m)) && attrs != []
    requires Defers(password, attrs[0].kind) || Fits(m, |Cut(attrs[0].value)|)
    ensures var (m1, password1) := Added(m, password, attrs[0].kind, attrs[0].value);
            && Whole(Body(m1))
            && Split(Body(m1)) + Kept(password1, attrs[1..]) == Split(Body(m)) + Kept(password, attrs)
  {
    if !Defers(password, attrs[0].kind) {
      AppendSplits(m, attrs[0].kind, attrs[0].value);
      var a, before, rest := CutAttr(attrs[0]), Split(Body(m)), Kept(password, attrs[1..]);
      assert Kept(password, attrs) == [a] + rest;
      Assoc(before, [a], rest);
    }
  }

  lemma {:induction false} AddAllKeeps(m: seq<Byte>, password: seq<Byte>, attrs: seq<Attr>)
    requires WellFormed(m) && Whole(Body(m)) && |m| + TotalSize(Kept(password, attrs)) < 0x1_0000
    ensures var r := AddAll(m, password, attrs);
            && Whole(Body(r.0)) && Split(Body(r.0)) == Split(Body(m)) + Kept(password, attrs)
            && |r.0| == |m| + TotalSize(Kept(password, attrs)) && SoundAt(r.0, HEADER)
    decreases attrs
  {
    if attrs == [] {
      assert Kept(password, attrs) == [];
      WholeIsSound(m, HEADER);
    } else {
      AddedSize(m, password, attrs);
      AddStep(m, password, attrs);
      var (m1, password1) := Added(m, password, attrs[0].kind, attrs[0].value);
      AddAllKeeps(m1, password1, attrs[1..]);
    }
  }

  lemma {:induction false} StoredStays(m: seq<Byte>, password: seq<Byte>, attrs: seq<Attr>)
    requires WellFormed(m) && |m| + TotalSize(Kept(password, attrs)) < 0x1_0000
    ensures AddAll(m, password, attrs).1 == if password == [] then Stored(attrs) else password
    decreases attrs
  {
    if attrs != [] {
      AddedSize(m, password, attrs);
      var (m1, password1) := Added(m, password, attrs[0].kind, attrs[0].value);
      StoredStays(m1, password1, attrs[1..]);
      PasswordStep(password, attrs[0], attrs[1..]);
      assert [attrs[0]] + attrs[1..] == attrs;
    }
  }

  lemma PasswordStep(password: seq<Byte>, a: Attr, rest: seq<Attr>)
    ensures var now := if Defers(password, a.kind) then NullPadded(a.value) else password;
            (if password == [] then Stored([a] + rest) else password) == if now == [] then Stored(rest) else now
  {
    var attrs := [a] + rest;
    assert attrs[1..] == rest;
    if password == [] {
      if FirstPassword(attrs) > 0 {
        EmittedStep(attrs);
        assert a.kind == USER_PASSWORD ==> NullPadded(a.value) == [];
      } else {
        assert NullPadded(a.value) != [];
      }
    }
  }

  /** Enumerating a message yields what any sequence of adds put there, in order and cut to 253
      bytes, except for the first password that is not empty, which is stored null-padded instead,
      and the empty passwords before it.  Such a message is one that can be enumerated. */
  lemma EnumeratesWhatWasAdded(m: seq<Byte>, attrs: seq<Attr>)
    requires WellFormed(m) && Whole(Body(m)) && |m| + TotalSize(Kept([], attrs)) < 0x1_0000
    ensures var (r, password) := AddAll(m, [], attrs);
            && Whole(Body(r)) && Split(Body(r)) == Split(Body(m)) + CutAll(Emitted(attrs))
            && SoundAt(r, HEADER) && password == Stored(attrs)
  {
    AddAllKeeps(m, [], attrs);
    StoredStays(m, [], attrs);
    KeptExactly(attrs);
  }

  // ---------------------------------------------------------------- the password in a signed message

  lemma PasswordSplits(m: seq<Byte>, password: seq<Byte>, secret: seq<Byte>, md5: Hasher)
    requires WellFormed(m) && Whole(Body(m)) && password != []
            && |password| % HASH_SIZE == 0 && Fits(m, |Cut(password)|)
    ensures var r := WithPassword(m, password, secret, md5);
            var cipher := Encrypt(md5, secret, Seed(md5, secret, Authenticator(m), []), password);
            && Whole(Body(r)) && Split(Body(r)) == Split(Body(m)) + [Attr(USER_PASSWORD, Cut(cipher))]
            && Authenticator(r) == Authenticator(m)
  {
    var cipher := Encrypt(md5, secret, Seed(md5, secret, Authenticator(m), []), password);
    AppendSplits(m, USER_PASSWORD, cipher);
    AppendBody(m, USER_PASSWORD, cipher);
  }

  /** What is cut to 253 bytes is no whole number of blocks. */
  lemma DecryptsExactly(password: seq<Byte>, secret: seq<Byte>, seed: Block, md5: Hasher)
    requires |password| % HASH_SIZE == 0
    ensures var value := Cut(Encrypt(md5, secret, seed, password));
            (|value| % HASH_SIZE == 0 && Decrypt(md5, secret, seed, value) == password) <==> |password| <= 240
  {
    var cipher := Encrypt(md5, secret, seed, password);
    if |password| <= 240 {
      assert Cut(cipher) == cipher;
      DecryptInvertsEncrypt(md5, secret, seed, password);
    } else {
      assert |Cut(cipher)| == 253;
    }
  }

  /** The seed of the password: the random authenticator of a request, or that of the request
      which is answered */
  function Start(reqAuth: Option<Block>, rng: Rng): Block
    requires !rng.Broken?
  {
    if rng.Yields? then rng.bytes else RequestAuthenticator(reqAuth)
  }

  /** The password as sign emits it, if one was stored */
  ghost function EmittedPassword(password: seq<Byte>, start: Block, secret: seq<Byte>, md5: Hasher): seq<Attr>
    requires |password| % HASH_SIZE == 0
  {
    if password == [] then []
    else [Attr(USER_PASSWORD, Cut(Encrypt(md5, secret, Seed(md5, secret, start, []), password)))]
  }

  lemma PasswordPart(m: seq<Byte>, password: seq<Byte>, start: Block, secret: seq<Byte>, md5: Hasher)
    requires WellFormed(m) && Whole(Body(m)) && |password| % HASH_SIZE == 0 && Fits(m, |Cut(password)|)
    ensures WellFormed(WithAuthenticator(m, start))
    ensures var r := WithPassword(WithAuthenticator(m, start), password, secret, md5);
            && WellFormed(r) && Whole(Body(r)) && |r| <= |m| + 2 + |password| && Authenticator(r) == start
            && Split(Body(r)) == Split(Body(m)) + EmittedPassword(password, start, secret, md5)
  {
    var m0 := WithAuthenticator(m, start);
    SameLength(m, m0);
    PasswordLength(m0, password, secret, md5);
    if password != [] {
      PasswordSplits(m0, password, secret, md5);
    }
  }

  /** The attributes of a signed message: those it had, then the password if one was stored, then
      the Message-Authenticator if it was asked for */
  lemma SignedSplits(m: seq<Byte>, password: seq<Byte>, reqAuth: Option<Block>, secret: seq<Byte>,
                     md5: Hasher, signer: Signer, rng: Rng, msgAuth: bool)
    requires WellFormed(m) && Whole(Body(m)) && |password| % HASH_SIZE == 0 && !rng.Broken?
    requires |m| + 2 + |password| + 18 < 0x1_0000
    ensures var signed := Signed(m, password, reqAuth, secret, md5, signer, rng, msgAuth);
            var before := Split(Body(m)) + EmittedPassword(password, Start(reqAuth, rng), secret, md5);
            && signed.Some? && |signed.value| >= HEADER
            && var attrs := Split(Body(signed.value));
            && before <= attrs && |attrs| == |before| + (if msgAuth then 1 else 0)
            && (msgAuth ==> attrs[|before|].kind == MESSAGE_AUTHENTICATOR && |attrs[|before|].value| == HASH_SIZE)
            && Authenticator(signed.value)
               == if rng.Yields? then rng.bytes
                  else md5(WithAuthenticator(signed.value, RequestAuthenticator(reqAuth)) + secret)
  {
    var start := Start(reqAuth, rng);
    PasswordPart(m, password, start, secret, md5);
    var m1 := WithPassword(WithAuthenticator(m, start), password, secret, md5);
    var m2 := if msgAuth then WithMac(m1, signer) else m1;
    if msgAuth {
      MacSplits(m1, signer);
    }
    if !rng.Yields? {
      AuthenticatorRestores(m2, md5(m2 + secret));
    }
  }

  lemma OneMore(before: seq<Attr>, a: Attr, all: seq<Attr>)
    requires before + [a] <= all
    ensures before <= all && all[|before|] == a
  {
    assert all[..|before| + 1] == before + [a];
    assert all[|before|] == all[..|before| + 1][|before|];
    assert all[..|before|] == all[..|before| + 1][..|before|];
  }

  /** The password stored by any sequence of adds is emitted by sign behind all that was added and
      before the Message-Authenticator.  Under the random authenticator of a request, which the
      signed message carries, or under that of the request which it answers, and which it does not
      carry, it decrypts to the null-padded original if and only if that has at most 240 bytes. */
  lemma PasswordComesBackExactly(m: seq<Byte>, attrs: seq<Attr>, reqAuth: Option<Block>, secret: seq<Byte>,
                                 md5: Hasher, signer: Signer, rng: Rng, msgAuth: bool)
    requires WellFormed(m) && Whole(Body(m)) && !rng.Broken? && FirstPassword(attrs) < |attrs|
    requires |m| + TotalSize(Kept([], attrs)) + 2 + |Stored(attrs)| + 18 < 0x1_0000
    ensures var (added, password) := AddAll(m, [], attrs);
            && |password| % HASH_SIZE == 0 && |added| + 2 + |password| + 18 < 0x1_0000
            && var signed := Signed(added, password, reqAuth, secret, md5, signer, rng, msgAuth);
            && signed.Some? && |signed.value| >= HEADER
            && var found, before := Split(Body(signed.value)), Split(Body(m)) + CutAll(Emitted(attrs));
            && before <= found && |found| == |before| + 1 + (if msgAuth then 1 else 0)
            && found[|before|].kind == USER_PASSWORD
            && (rng.Yields? ==> Authenticator(signed.value) == Start(reqAuth, rng))
            && var plain, value := NullPadded(attrs[FirstPassword(attrs)].value), found[|before|].value;
               (|value| % HASH_SIZE == 0
                && Decrypt(md5, secret, Seed(md5, secret, Start(reqAuth, rng), []), value) == plain)
               <==> |plain| <= 240
  {
    var (added, password) := AddAll(m, [], attrs);
    EnumeratesWhatWasAdded(m, attrs);
    AddAllKeeps(m, [], attrs);
    SignedSplits(added, password, reqAuth, secret, md5, signer, rng, msgAuth);
    OneMore(Split(Body(added)), EmittedPassword(password, Start(reqAuth, rng), secret, md5)[0],
            Split(Body(Signed(added, password, reqAuth, secret, md5, signer, rng, msgAuth).value)));
    DecryptsExactly(password, secret, Seed(md5, secret, Start(reqAuth, rng), []), md5);
  }

  /** A password of 241 bytes does not come back. */
  lemma LongPasswordIsLost(secret: seq<Byte>, md5: Hasher, signer: Signer, random: Block)
    ensures |Create(ACCESS_REQUEST)| == HEADER
    ensures var (added, password) := AddAll(Create(ACCESS_REQUEST), [], [Attr(USER_PASSWORD, Zeros(241))]);
            && |password| == 256 && |added| == HEADER
            && var signed := Signed(added, password, None, secret, md5, signer, Yields(random), false);
            && signed.Some? && |signed.value| >= HEADER
            && var found := Split(Body(signed.value));
            && |found| == 1 && found[0].kind == USER_PASSWORD
            && !(|found[0].value| % HASH_SIZE == 0
                 && Decrypt(md5, secret, Seed(md5, secret, random, []), found[0].value) == password)
  {
    var m, attrs := Create(ACCESS_REQUEST), [Attr(USER_PASSWORD, Zeros(241))];
    assert m == m[..HEADER] + m[HEADER..];
    assert FirstPassword(attrs) == 0 && Emitted(attrs) == [] && CutAll([]) == [];
    KeptExactly(attrs);
    assert |Stored(attrs)| == 256;
    EnumeratesWhatWasAdded(m, attrs);
    AddAllKeeps(m, [], attrs);
    PasswordComesBackExactly(m, attrs, None, secret, md5, signer, Yields(random), false);
    assert Body(m) == [];
  }
}
