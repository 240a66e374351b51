/** The ESP context (esp_context.c): outbound sequence numbers, and the anti-replay window of
    section 3.4.3 of RFC 4303 as a circular bitmap with unsigned 32-bit index arithmetic. */
module EspContext {
  import opened Bytes

  const WINDOW_SIZE: nat := 128

  /** An authenticated cipher as the ESP code uses it: `encrypt` turns a plaintext into the
      ciphertext followed by the ICV, `decrypt` takes both and gives None when the ICV is wrong.
      Both take the associated data and the IV.  `ivGen` may be missing or fail. */
  datatype Aead = Aead(
    blockSize: nat, ivSize: nat, icvSize: nat,
    encrypt: (seq<Byte>, seq<Byte>, seq<Byte>) -> Option<seq<Byte>>,
    decrypt: (seq<Byte>, seq<Byte>, seq<Byte>) -> Option<seq<Byte>>,
    ivGen: Option<U32 -> Option<seq<Byte>>>)

  /** What is assumed of a cipher: decryption inverts encryption, lengths are as announced. */
  ghost predicate Lawful(a: Aead) {
    && a.blockSize > 0
    && (forall plain, aad, iv :: Inverts(a, plain, aad, iv))
    && (a.ivGen.Some? ==> forall seqno: U32 :: GivesIv(a.ivGen.value, seqno, a.ivSize))
  }

  ghost predicate Inverts(a: Aead, plain: seq<Byte>, aad: seq<Byte>, iv: seq<Byte>) {
    a.encrypt(plain, aad, iv).Some? ==>
      && |a.encrypt(plain, aad, iv).value| == |plain| + a.icvSize
      && a.decrypt(a.encrypt(plain, aad, iv).value, aad, iv) == Some(plain)
  }

  ghost predicate GivesIv(ivGen: U32 -> Option<seq<Byte>>, seqno: U32, ivSize: nat) {
    ivGen(seqno).Some? ==> |ivGen(seqno).value| == ivSize
  }

  // ---------------------------------------------------------------- specification

  /** What an ESP context stands for: the highest sequence number authenticated (inbound) or
      assigned (outbound), and every number authenticated so far. */
  datatype Replay = Replay(inbound: bool, last: U32, seen: set<U32>)

  function NewReplay(inbound: bool): Replay { Replay(inbound, 0, {}) }

  ghost predicate Sane(r: Replay) { forall s | s in r.seen :: 0 < s <= r.last }

  /** A number lies in the window or ahead of it. */
  predicate Reached(r: Replay, s: U32) { s > r.last || r.last - s < WINDOW_SIZE }

  predicate Accepts(r: Replay, s: U32) {
    r.inbound && s > 0 && Reached(r, s) && s !in r.seen
  }

  function Authenticate(r: Replay, s: U32): Replay {
    if r.inbound then r.(last := Max(r.last, s), seen := r.seen + {s}) else r
  }

  /** One packet as decrypt sees it: its sequence number, and whether its ICV is genuine. */
  datatype Attempt = Attempt(seqno: U32, genuine: bool)

  predicate Admits(r: Replay, a: Attempt) { Accepts(r, a.seqno) && a.genuine }

  function Receive(r: Replay, a: Attempt): Replay { if Admits(r, a) then Authenticate(r, a.seqno) else r }

  /** The sequence numbers of the packets that get through, in order of arrival. */
  function Admitted(r: Replay, attempts: seq<Attempt>): seq<U32>
    decreases attempts
  {
    if attempts == [] then []
    else
      (if Admits(r, attempts[0]) then [attempts[0].seqno] else [])
      + Admitted(Receive(r, attempts[0]), attempts[1..])
  }

  /** No sequence number gets through twice, whatever arrives. */
  lemma {:induction false} NeverTwice(r: Replay, attempts: seq<Attempt>)
    ensures forall i | 0 <= i < |Admitted(r, attempts)| :: Admitted(r, attempts)[i] !in r.seen
    ensures forall i, j | 0 <= i < j < |Admitted(r, attempts)| ::
              Admitted(r, attempts)[i] != Admitted(r, attempts)[j]
    decreases attempts
  {
    if attempts != [] {
      var rest := Admitted(Receive(r, attempts[0]), attempts[1..]);
      NeverTwice(Receive(r, attempts[0]), attempts[1..]);
      if Admits(r, attempts[0]) {
        assert Admitted(r, attempts) == [attempts[0].seqno] + rest;
        assert attempts[0].seqno in Receive(r, attempts[0]).seen;
      } else {
        assert Admitted(r, attempts) == rest;
      }
    }
  }

  // ---------------------------------------------------------------- bits of the window

  function Mask(k: nat): bv8
    requires k < 8
  {
    (1 as bv8) << k
  }

  predicate ByteBit(b: bv8, k: nat)
    requires k < 8
  {
    b & Mask(k) != 0
  }

  /** The byte that set_window_bit stores. */
  function WithBit(b: bv8, k: nat, on: bool): bv8
    requires k < 8
  {
    if on then b | Mask(k) else b & !Mask(k)
  }

  predicate SingleBit(m: bv8) { m != 0 && m & (m - 1) == 0 }

  lemma MaskValue(k: nat)
    requires k < 8
    ensures Mask(k) == [1, 2, 4, 8, 16, 32, 64, 128][k] && SingleBit(Mask(k))
  {
    match k
    case 0 =>
    case 1 =>
    case 2 =>
    case 3 =>
    case 4 =>
    case 5 =>
    case 6 =>
    case _ => assert k == 7;
  }

  lemma SetSingleBit(b: bv8, m: bv8, n: bv8)
    requires SingleBit(m) && SingleBit(n)
    ensures (b | m) & n != 0 <==> m == n || b & n != 0
    ensures (b & !m) & n != 0 <==> m != n && b & n != 0
  {
  }

  lemma SetBitInByte(b: bv8, k: nat, on: bool, j: nat)
    requires k < 8 && j < 8
    ensures ByteBit(WithBit(b, k, on), j) <==> (if j == k then on else ByteBit(b, j))
  {
    MaskValue(k);
    MaskValue(j);
    SetSingleBit(b, Mask(k), Mask(j));
  }

  predicate BitAt(w: seq<bv8>, index: nat)
    requires index / 8 < |w|
  {
    ByteBit(w[index / 8], index % 8)
  }

  lemma SetBit(w: seq<bv8>, index: nat, on: bool, k: nat)
    requires index / 8 < |w| && k / 8 < |w|
    ensures BitAt(w[index / 8 := WithBit(w[index / 8], index % 8, on)], k) <==> (if k == index then on else BitAt(w, k))
  {
    SetBitAt(w, index / 8, index % 8, on, k / 8, k % 8);
    assert k == index <==> k / 8 == index / 8 && k % 8 == index % 8;
  }

  lemma SetBitAt(w: seq<bv8>, i: nat, k: nat, on: bool, j: nat, l: nat)
    requires i < |w| && k < 8 && j < |w| && l < 8
    ensures ByteBit(w[i := WithBit(w[i], k, on)][j], l) <==> (if i == j && k == l then on else ByteBit(w[j], l))
  {
    if i == j { SetBitInByte(w[i], k, on, l); }
  }

  /** The bit that stands for the sequence number `offset` below the highest one, counted
      backwards around the window. */
  function Slot(index: nat, offset: nat): (k: nat)
    requires index < WINDOW_SIZE && offset < WINDOW_SIZE
    ensures k < WINDOW_SIZE
  {
    if index >= offset then index - offset else index - offset + WINDOW_SIZE
  }

  /** The source subtracts in unsigned 32-bit arithmetic before it reduces modulo the window
      size.  The wrap-around is harmless because 128 divides 2^32. */
  lemma SlotIgnoresWrap(index: nat, offset: U32)
    requires index < WINDOW_SIZE
    ensures ToU32(index - offset) % WINDOW_SIZE == Slot(index, offset % WINDOW_SIZE)
  {
    var x := index - offset;
    var q, d := offset / 128, offset % 128;
    if x < 0 {
      DivModUnique(x, 0x1_0000_0000, -1, x + 0x1_0000_0000);
      if index >= d {
        DivModUnique(x + 0x1_0000_0000, 128, 0x200_0000 - q, index - d);
      } else {
        DivModUnique(x + 0x1_0000_0000, 128, 0x1ff_ffff - q, index - d + 128);
      }
    } else {
      DivModUnique(offset, 128, 0, offset);
      DivModUnique(x, 128, 0, x);
    }
  }

  type Bits = b: seq<bool> | |b| == WINDOW_SIZE witness seq(WINDOW_SIZE, i => false)

  /** `bits` is what the bytes of the window buffer hold. */
  ghost predicate Mirrors(w: seq<bv8>, bits: Bits) {
    |w| == 17 && forall k: nat | k < WINDOW_SIZE :: BitAt(w, k) <==> bits[k]
  }

  lemma SetBitMirrors(w: seq<bv8>, bits: Bits, index: nat, on: bool)
    requires Mirrors(w, bits) && index < WINDOW_SIZE
    ensures Mirrors(w[index / 8 := WithBit(w[index / 8], index % 8, on)], bits[index := on])
  {
    var w' := w[index / 8 := WithBit(w[index / 8], index % 8, on)];
    forall k: nat | k < WINDOW_SIZE ensures BitAt(w', k) <==> bits[index := on][k] {
      SetBit(w, index, on, k);
      assert BitAt(w, k) <==> bits[k];
    }
  }

  /** The circular bitmap stands for the numbers seen: the bit `d` slots behind the index tells
      whether the number `d` below the highest one has been seen. */
  ghost predicate Represents(bits: Bits, index: nat, r: Replay) {
    && index < WINDOW_SIZE
    && forall d: nat | d < WINDOW_SIZE && d < r.last :: bits[Slot(index, d)] <==> r.last - d in r.seen
  }

  function Up(index: nat): nat { if index + 1 == WINDOW_SIZE then 0 else index + 1 }

  /** `n` rounds of the loop in set_authenticated_seqno. */
  function Advance(bits: Bits, index: nat, n: nat): (r: (Bits, nat))
    requires index < WINDOW_SIZE
    ensures r.1 < WINDOW_SIZE
  {
    if n == 0 then (bits, index)
    else
      var (b, i) := Advance(bits, index, n - 1);
      (b[Up(i) := false], Up(i))
  }

  lemma {:induction false} AdvanceShifts(bits: Bits, index: nat, n: nat, d: nat)
    requires index < WINDOW_SIZE && n <= WINDOW_SIZE && d < WINDOW_SIZE
    ensures var (b, i) := Advance(bits, index, n);
            b[Slot(i, d)] == (d >= n && bits[Slot(index, d - n)])
  {
    if n > 0 && d > 0 {
      AdvanceShifts(bits, index, n - 1, d - 1);
    }
  }

  /** Moving the window up to `s` and marking its bit is adding `s`, however far `s` is ahead. */
  lemma AdvanceRepresents(bits: Bits, index: nat, r: Replay, s: U32)
    requires Represents(bits, index, r) && Sane(r) && r.inbound && s > r.last
    ensures var (b, i) := Advance(bits, index, Min(s - r.last, WINDOW_SIZE));
            Represents(b[i := true], i, Authenticate(r, s))
  {
    var shift := Min(s - r.last, WINDOW_SIZE);
    var (b, i) := Advance(bits, index, shift);
    forall d: nat | d < WINDOW_SIZE && d < s
      ensures b[i := true][Slot(i, d)] <==> s - d in Authenticate(r, s).seen
    {
      AdvanceShifts(bits, index, shift, d);
      if d >= shift { assert s - d == r.last - (d - shift); }
    }
  }

  /** The number whose bit set_authenticated_seqno sets for a number that is not ahead */
  function MarkedNumber(r: Replay, s: U32): (n: nat)
    requires s <= r.last
    ensures n <= r.last && r.last - n < WINDOW_SIZE
    ensures r.last - s < WINDOW_SIZE ==> n == s
  {
    r.last - (r.last - s) % WINDOW_SIZE
  }

  /** set_authenticated_seqno on any number: one that has left the window is taken for the one in
      the window with the same slot, and 0 for none. */
  function Marked(r: Replay, s: U32): Replay {
    if !r.inbound || s > r.last then Authenticate(r, s)
    else if MarkedNumber(r, s) == 0 then r
    else r.(seen := r.seen + {MarkedNumber(r, s)})
  }

  /** That is right for what verify_seqno accepts; otherwise it is so only by chance. */
  lemma MarkedExactly(r: Replay, s: U32)
    requires Sane(r) && r.inbound
    ensures Accepts(r, s) ==> Marked(r, s) == Authenticate(r, s)
    ensures Marked(r, s) == Authenticate(r, s)
            <==> (s > r.last || (s > 0 && r.last - s < WINDOW_SIZE) || (s in r.seen && MarkedNumber(r, s) in r.seen))
  {
    if s <= r.last {
      assert Marked(r, s).seen == Authenticate(r, s).seen ==> s in Marked(r, s).seen;
      assert Marked(r, s) == Authenticate(r, s) ==> MarkedNumber(r, s) == 0 || MarkedNumber(r, s) in r.seen + {s};
    }
  }

  /** With 200 as the highest number, marking 10 makes 138 seen and not 10.  decrypt never does so: it
      asks verify_seqno first. */
  lemma StaleMarksAnother()
    ensures var r := Replay(true, 200, {200});
            && Sane(r) && !Accepts(r, 10)
            && 138 in Marked(r, 10).seen && 10 !in Marked(r, 10).seen && Marked(r, 10) != Authenticate(r, 10)
  {
    var r := Replay(true, 200, {200});
    assert MarkedNumber(r, 10) == 138;
    assert 10 in Authenticate(r, 10).seen;
  }

  lemma MarkRepresents(bits: Bits, index: nat, r: Replay, s: U32)
    requires Represents(bits, index, r) && r.inbound && s <= r.last
    ensures Represents(bits[Slot(index, (r.last - s) % WINDOW_SIZE) := true], index, Marked(r, s))
  {
  }

  // ---------------------------------------------------------------- implementation

  class Context {
    const aead: Aead
    const inbound: bool
    var lastSeqno: U32
    var seqnoIndex: U32
    const windowSize: U32 := 128
    const window: array<bv8>
    ghost var bits: Bits
    ghost var seen: set<U32>

    ghost predicate Valid()
      reads this, window
    {
      && Sane(State())
      && (inbound ==> Mirrored() && Represents(bits, seqnoIndex, State()))
    }

    ghost predicate Mirrored()
      reads this, window
    {
      Mirrors(window[..], bits)
    }

    ghost function State(): Replay
      reads this
    {
      Replay(inbound, lastSeqno, seen)
    }

    constructor (aead: Aead, inbound: bool)
      ensures Valid() && State() == NewReplay(inbound) && this.aead == aead && fresh(window)
    {
      this.aead := aead;
      this.inbound := inbound;
      lastSeqno, seqnoIndex := 0, 0;
      seen, bits := {}, seq(WINDOW_SIZE, i => false);
      window := new bv8[if inbound then 128 / 8 + 1 else 0](_ => 0);
    }

    method SetWindowBit(index: U32, set_: bool)
      requires Mirrored() && index < WINDOW_SIZE
      modifies this`bits, window
      ensures Mirrored() && bits == old(bits)[index := set_]
    {
      SetBitMirrors(window[..], bits, index, set_);
      var i := index / 8;
      window[i] := WithBit(window[i], index % 8, set_);
      bits := bits[index := set_];
    }

    method GetWindowBit(index: U32) returns (bit: bool)
      requires Mirrored() && index < WINDOW_SIZE
      ensures bit <==> bits[index]
    {
      var i := index / 8;
      bit := window[i] & Mask(index % 8) != 0;
      assert bit <==> BitAt(window[..], index);
    }

    /** Tells whether a number inside the window has not been seen yet. */
    method CheckWindow(seqno: U32) returns (unseen: bool)
      requires Valid() && inbound && 0 < seqno <= lastSeqno && lastSeqno - seqno < WINDOW_SIZE
      ensures unseen <==> seqno !in seen
    {
      var offset := ToU32(lastSeqno - seqno);
      SlotIgnoresWrap(seqnoIndex, offset);
      assert offset % WINDOW_SIZE == offset;
      offset := ToU32(seqnoIndex - offset) % windowSize;
      var bit := GetWindowBit(offset);
      unseen := !bit;
    }

    method VerifySeqno(seqno: U32) returns (ok: bool)
      requires Valid()
      ensures ok <==> Accepts(State(), seqno)
    {
      if !inbound {
        return false;
      }
      if seqno > lastSeqno {
        return true;
      } else if seqno > 0 && windowSize > ToU32(lastSeqno - seqno) {
        ok := CheckWindow(seqno);
      } else {
        return false;
      }
    }

    method SetAuthenticatedSeqno(seqno: U32)
      requires Valid()
      modifies this, window
      ensures Valid() && State() == Marked(old(State()), seqno)
    {
      if !inbound {
        return;
      }
      if seqno > lastSeqno {
        AdvanceRepresents(bits, seqnoIndex, State(), seqno);
        var shift := ToU32(seqno - lastSeqno);
        shift := if shift < windowSize then shift else windowSize;
        AdvanceWindow(shift);
        SetWindowBit(seqnoIndex, true);
        lastSeqno := seqno;
        seen := seen + {seqno};
      } else {
        MarkSlot(seqno);
      }
    }

    /** The second branch of set_authenticated_seqno */
    method MarkSlot(seqno: U32)
      requires Valid() && inbound && seqno <= lastSeqno
      modifies this`bits, this`seen, window
      ensures Valid() && State() == Marked(old(State()), seqno)
    {
      ghost var marked := Marked(State(), seqno);
      MarkRepresents(bits, seqnoIndex, State(), seqno);
      var i := ToU32(lastSeqno - seqno);
      SlotIgnoresWrap(seqnoIndex, i);
      var slot := ToU32(seqnoIndex - i) % windowSize;
      assert slot == Slot(seqnoIndex, (lastSeqno - seqno) % WINDOW_SIZE);
      SetWindowBit(slot, true);
      seen := marked.seen;
      assert State() == marked;
    }

    /** The loop of set_authenticated_seqno: moves the index up and clears what it passes. */
    method AdvanceWindow(shift: U32)
      requires Mirrored() && seqnoIndex < WINDOW_SIZE
      modifies this`seqnoIndex, this`bits, window
      ensures Mirrored() && (bits, seqnoIndex) == Advance(old(bits), old(seqnoIndex), shift)
    {
      var i := 0;
      while i < shift
        invariant 0 <= i <= shift
        invariant Mirrored() && (bits, seqnoIndex) == Advance(old(bits), old(seqnoIndex), i)
      {
        seqnoIndex := (seqnoIndex + 1) % windowSize;
        SetWindowBit(seqnoIndex, false);
        i := i + 1;
      }
    }

    method NextSeqno() returns (ok: bool, seqno: U32)
      requires Valid()
      modifies this`lastSeqno
      ensures Valid()
      ensures ok <==> !inbound && old(lastSeqno) < 0xffff_ffff
      ensures ok ==> seqno == old(lastSeqno) + 1 && State() == old(State()).(last := seqno)
      ensures !ok ==> State() == old(State())
    {
      if inbound || lastSeqno == 0xffff_ffff {
        return false, 0;
      }
      lastSeqno := lastSeqno + 1;
      return true, lastSeqno;
    }
  }
}
