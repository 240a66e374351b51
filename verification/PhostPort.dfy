/** The [proto:]host[:port] grammar of the IMS server (parse_proto and parse_phostport of main.c).
    A C string is the sequence of its bytes without the terminating null byte. */
module PhostPort {
  import opened Bytes
  import Decimals
  import Lists

  type Text = seq<bv8>

  const COLON: bv8 := 0x3a
  const OPEN: bv8 := 0x5b
  const CLOSE: bv8 := 0x5d

  datatype Proto = Unset | Udp | Tcp | Tls | Sctp

  /** Which transports are switched off */
  datatype Config = Config(tcpDisable: bool, tlsDisable: bool, sctpDisable: bool)

  datatype Address = Address(host: Text, port: int, proto: Proto)

  // ---------------------------------------------------------------- parse_proto

  /** Four bytes side by side */
  function Spread(a: bv8, b: bv8, c: bv8, d: bv8): bv32 {
    ((a as bv32) << 24) | ((b as bv32) << 16) | ((c as bv32) << 8) | (d as bv32)
  }

  /** The source adds the shifted bytes: there are no carries. */
  lemma SumIsSpread(a: bv8, b: bv8, c: bv8, d: bv8)
    ensures ((a as bv32) << 24) + ((b as bv32) << 16) + ((c as bv32) << 8) + (d as bv32) == Spread(a, b, c, d)
    ensures ((b as bv32) << 16) + ((c as bv32) << 8) + (d as bv32) == Spread(0, b, c, d)
  {
  }

  /** PROTO2UINT4, and PROTO2UINT3 with a null byte in front */
  function Pack(a: bv8, b: bv8, c: bv8, d: bv8): bv32 { Spread(a, b, c, d) | 0x20202020 }

  function ParseProto(cfg: Config, s: Text): Option<Proto> {
    if |s| == 3 then
      var i := Pack(0, s[0], s[1], s[2]);
      if i == Pack(0, 0x75, 0x64, 0x70) then Some(Udp)
      else if i == Pack(0, 0x74, 0x63, 0x70) then if cfg.tcpDisable then None else Some(Tcp)
      else if i == Pack(0, 0x74, 0x6c, 0x73) then if cfg.tcpDisable || cfg.tlsDisable then None else Some(Tls)
      else None
    else if |s| == 4 then
      if Pack(s[0], s[1], s[2], s[3]) == Pack(0x73, 0x63, 0x74, 0x70) then
        if cfg.sctpDisable then None else Some(Sctp)
      else None
    else None
  }

  /** ASCII lower case */
  function Lower(c: bv8): bv8 { if 0x41 <= c <= 0x5a then c + 0x20 else c }

  function LowerAll(s: Text): (r: Text)
    ensures |r| == |s| && forall i | 0 <= i < |s| :: r[i] == Lower(s[i])
  {
    seq(|s|, i requires 0 <= i < |s| => Lower(s[i]))
  }

  const UDP: Text := [0x75, 0x64, 0x70]
  const TCP: Text := [0x74, 0x63, 0x70]
  const TLS: Text := [0x74, 0x6c, 0x73]
  const SCTP: Text := [0x73, 0x63, 0x74, 0x70]

  predicate Letter(c: bv8) { 0x61 <= c <= 0x7a }

  /** Setting bit 5 of every byte compares letters without their case, and nothing else passes. */
  lemma PackedLetter(a: bv8, x: bv8)
    requires Letter(x)
    ensures a | 0x20 == x | 0x20 <==> Lower(a) == x
  {
  }

  lemma PackIsSpread(a: bv8, b: bv8, c: bv8, d: bv8)
    ensures Pack(a, b, c, d) == Spread(a | 0x20, b | 0x20, c | 0x20, d | 0x20)
  {
  }

  /** The bytes of a packed word */
  lemma Unpacked(a: bv8, b: bv8, c: bv8, d: bv8)
    ensures (Pack(a, b, c, d) >> 24) as bv8 == a | 0x20
    ensures ((Pack(a, b, c, d) >> 16) & 0xff) as bv8 == b | 0x20
    ensures ((Pack(a, b, c, d) >> 8) & 0xff) as bv8 == c | 0x20
    ensures (Pack(a, b, c, d) & 0xff) as bv8 == d | 0x20
  {
  }

  lemma PackInjective(a: bv8, b: bv8, c: bv8, d: bv8, x: bv8, y: bv8, z: bv8, w: bv8)
    ensures Pack(a, b, c, d) == Pack(x, y, z, w)
            <==> a | 0x20 == x | 0x20 && b | 0x20 == y | 0x20 && c | 0x20 == z | 0x20 && d | 0x20 == w | 0x20
  {
    if Pack(a, b, c, d) == Pack(x, y, z, w) {
      Unpacked(a, b, c, d);
      Unpacked(x, y, z, w);
    } else {
      PackIsSpread(a, b, c, d);
      PackIsSpread(x, y, z, w);
    }
  }

  lemma Packed4(a: bv8, b: bv8, c: bv8, d: bv8, x: bv8, y: bv8, z: bv8, w: bv8)
    requires Letter(x) && Letter(y) && Letter(z) && Letter(w)
    ensures Pack(a, b, c, d) == Pack(x, y, z, w) <==> Lower(a) == x && Lower(b) == y && Lower(c) == z && Lower(d) == w
  {
    PackInjective(a, b, c, d, x, y, z, w);
    PackedLetter(a, x);
    PackedLetter(b, y);
    PackedLetter(c, z);
    PackedLetter(d, w);
  }

  lemma Packed3(a: bv8, b: bv8, c: bv8, x: bv8, y: bv8, z: bv8)
    requires Letter(x) && Letter(y) && Letter(z)
    ensures Pack(0, a, b, c) == Pack(0, x, y, z) <==> Lower(a) == x && Lower(b) == y && Lower(c) == z
  {
    PackInjective(0, a, b, c, 0, x, y, z);
    PackedLetter(a, x);
    PackedLetter(b, y);
    PackedLetter(c, z);
  }

  function NameOf(p: Proto): Text {
    match p case Unset => [] case Udp => UDP case Tcp => TCP case Tls => TLS case Sctp => SCTP
  }

  predicate Enabled(cfg: Config, p: Proto) {
    match p
    case Unset => false
    case Udp => true
    case Tcp => !cfg.tcpDisable
    case Tls => !cfg.tcpDisable && !cfg.tlsDisable
    case Sctp => !cfg.sctpDisable
  }

  /** Exactly the names of the enabled protocols are accepted, in any mix of cases. */
  lemma ProtoExactly(cfg: Config, s: Text, p: Proto)
    ensures ParseProto(cfg, s) == Some(p) <==> Enabled(cfg, p) && LowerAll(s) == NameOf(p)
  {
    if |s| == 3 {
      Packed3(s[0], s[1], s[2], 0x75, 0x64, 0x70);
      Packed3(s[0], s[1], s[2], 0x74, 0x63, 0x70);
      Packed3(s[0], s[1], s[2], 0x74, 0x6c, 0x73);
      assert forall t: Text | |t| == 3 :: LowerAll(s) == t <==>
               LowerAll(s)[0] == t[0] && LowerAll(s)[1] == t[1] && LowerAll(s)[2] == t[2];
    } else if |s| == 4 {
      Packed4(s[0], s[1], s[2], s[3], 0x73, 0x63, 0x74, 0x70);
      assert LowerAll(s) == SCTP <==>
               LowerAll(s)[0] == 0x73 && LowerAll(s)[1] == 0x63 && LowerAll(s)[2] == 0x74 && LowerAll(s)[3] == 0x70;
    }
  }

  // ---------------------------------------------------------------- strtol with base 10

  const LONG_MAX: int := 0x7fff_ffff_ffff_ffff
  const INT_MAX: int := 0x7fff_ffff

  predicate IsSpace(c: bv8) { c == 0x20 || 0x09 <= c <= 0x0d }

  function Digit(c: bv8): Option<Decimals.Digit> {
    if c == 0x30 then Some(0) else if c == 0x31 then Some(1) else if c == 0x32 then Some(2)
    else if c == 0x33 then Some(3) else if c == 0x34 then Some(4) else if c == 0x35 then Some(5)
    else if c == 0x36 then Some(6) else if c == 0x37 then Some(7) else if c == 0x38 then Some(8)
    else if c == 0x39 then Some(9) else None
  }

  predicate AllDigits(t: Text) { forall i | 0 <= i < |t| :: Digit(t[i]).Some? }

  function DigitsOf(t: Text): seq<Decimals.Digit>
    requires AllDigits(t)
  {
    seq(|t|, i requires 0 <= i < |t| => Digit(t[i]).value)
  }

  function SkipSpaces(t: Text): Text {
    if t != [] && IsSpace(t[0]) then SkipSpaces(t[1..]) else t
  }

  predicate Signed(t: Text) { t != [] && (t[0] == 0x2b || t[0] == 0x2d) }

  /** strtol has used up the whole text and found a number in it. */
  predicate IsNumber(t: Text) {
    var u := SkipSpaces(t);
    var digits := if Signed(u) then u[1..] else u;
    digits != [] && AllDigits(digits)
  }

  function Clamp(x: int): int { if x > LONG_MAX then LONG_MAX else if x < -LONG_MAX - 1 then -LONG_MAX - 1 else x }

  /** Truncation to a 32-bit int */
  function ToInt(x: int): int {
    var u := ToU32(x);
    if u > INT_MAX then u - 0x1_0000_0000 else u
  }

  /** The number in a text that is one, as stored into the port */
  function Number(t: Text): int
    requires IsNumber(t)
  {
    var u := SkipSpaces(t);
    if Signed(u) && u[0] == 0x2d then ToInt(Clamp(-(Decimals.ValueOf(DigitsOf(u[1..])) as int)))
    else ToInt(Clamp(Decimals.ValueOf(DigitsOf(if Signed(u) then u[1..] else u))))
  }

  // ---------------------------------------------------------------- the grammar

  function Delta(c: bv8): int { if c == OPEN then 1 else if c == CLOSE then -1 else 0 }

  /** The open brackets at the end, with `d` open before position `p`.  Brackets open one level at
      most, and none is closed that is not open. */
  function Level(s: Text, p: nat, d: int): Option<int>
    decreases |s| - p
  {
    if p >= |s| then Some(d)
    else
      var e := d + Delta(s[p]);
      if e < 0 || e > 1 then None else Level(s, p + 1, e)
  }

  /** The first colon outside of brackets from position `p` on, or the length of the text */
  function ColonFrom(s: Text, p: nat, d: int): (r: nat)
    requires p <= |s|
    ensures p <= r <= |s| && (r < |s| ==> s[r] == COLON)
    decreases |s| - p
  {
    if p == |s| || (s[p] == COLON && d == 0) then p else ColonFrom(s, p + 1, d + Delta(s[p]))
  }

  /** How a text falls into fields */
  datatype Fields = Bad | One(host: Text) | Two(before: Text, after: Text) | Three(name: Text, middle: Text, port: Text)

  function FieldsOf(s: Text): Fields {
    if Level(s, 0, 0).None? || s == [] || s[|s| - 1] == COLON then Bad
    else
      var c := ColonFrom(s, 0, 0);
      if c == |s| then One(s)
      else
        var e := ColonFrom(s, c + 1, 0);
        if e == |s| then Two(s[..c], s[c + 1..])
        else if ColonFrom(s, e + 1, 0) < |s| then Bad
        else Three(s[..c], s[c + 1..e], s[e + 1..])
  }

  /** What the fields mean: two are proto:host unless the second is a number. */
  function Meaning(cfg: Config, f: Fields): Option<Address> {
    match f
    case Bad => None
    case One(host) => Some(Address(host, 0, Unset))
    case Two(before, after) =>
      if IsNumber(after) then Some(Address(before, Number(after), Unset))
      else
        var proto := ParseProto(cfg, before);
        if proto.None? then None else Some(Address(after, 0, proto.value))
    case Three(name, host, port) =>
      var proto := ParseProto(cfg, name);
      if proto.None? || !IsNumber(port) then None else Some(Address(host, Number(port), proto.value))
  }

  function Parse(cfg: Config, s: Text): Option<Address> { Meaning(cfg, FieldsOf(s)) }

  // ---------------------------------------------------------------- pieces without a colon

  /** No colon outside of brackets, and brackets closed */
  predicate Piece(s: Text) { Level(s, 0, 0) == Some(0) && ColonFrom(s, 0, 0) == |s| }

  predicate Quiet(s: Text) { forall i | 0 <= i < |s| :: s[i] != OPEN && s[i] != CLOSE && s[i] != COLON }

  lemma {:induction false} QuietFrom(s: Text, p: nat)
    requires Quiet(s) && p <= |s|
    ensures Level(s, p, 0) == Some(0) && ColonFrom(s, p, 0) == |s|
    decreases |s| - p
  {
    if p < |s| {
      QuietFrom(s, p + 1);
    }
  }

  predicate At(s: Text, p: nat, a: Text) { p + |a| <= |s| && forall i | 0 <= i < |a| :: s[p + i] == a[i] }

  /** A part without a colon is passed over. */
  lemma {:induction false} Passes(s: Text, p: nat, a: Text, i: nat, d: int)
    requires At(s, p, a) && i <= |a| && Level(a, i, d).Some?
    ensures Level(s, p + i, d) == Level(s, p + |a|, Level(a, i, d).value)
    ensures ColonFrom(a, i, d) == |a| ==> ColonFrom(s, p + i, d) == ColonFrom(s, p + |a|, Level(a, i, d).value)
    decreases |a| - i
  {
    if i < |a| {
      assert s[p + i] == a[i];
      Passes(s, p, a, i + 1, d + Delta(a[i]));
    }
  }

  /** A field with a colon behind it, and the last field */
  lemma NextField(s: Text, p: nat, a: Text)
    requires At(s, p, a) && Piece(a) && p + |a| < |s| && s[p + |a|] == COLON
    ensures ColonFrom(s, p, 0) == p + |a| && Level(s, p, 0) == Level(s, p + |a| + 1, 0)
  {
    Passes(s, p, a, 0, 0);
  }

  /** What can come last: brackets may still be open, but there is no colon at the end. */
  predicate Tail(s: Text) {
    s != [] && s[|s| - 1] != COLON && Level(s, 0, 0).Some? && ColonFrom(s, 0, 0) == |s|
  }

  lemma PieceIsTail(a: Text)
    requires Piece(a) && a != []
    ensures Tail(a)
  {
    PieceEnd(a, 0, 0);
  }

  lemma LastField(s: Text, p: nat, a: Text)
    requires At(s, p, a) && Tail(a) && p + |a| == |s|
    ensures ColonFrom(s, p, 0) == |s| && Level(s, p, 0).Some? && s[|s| - 1] != COLON
  {
    Passes(s, p, a, 0, 0);
    assert s[p + (|a| - 1)] == a[|a| - 1];
  }

  /** The other way around: what has been passed over has no colon. */
  lemma {:induction false} Passed(s: Text, p: nat, a: Text, i: nat, d: int)
    requires At(s, p, a) && i <= |a| && Level(s, p + i, d).Some? && ColonFrom(s, p + i, d) >= p + |a|
    ensures Level(a, i, d).Some? && ColonFrom(a, i, d) == |a|
    decreases |a| - i
  {
    if i < |a| {
      assert s[p + i] == a[i];
      Passed(s, p, a, i + 1, d + Delta(a[i]));
    }
  }

  /** What lies before a colon outside of brackets is a piece. */
  lemma PassedPiece(s: Text, p: nat, a: Text)
    requires At(s, p, a) && p + |a| < |s| && Level(s, p, 0).Some? && ColonFrom(s, p, 0) == p + |a|
    ensures Piece(a) && Level(s, p + |a| + 1, 0) == Level(s, p, 0)
  {
    Passed(s, p, a, 0, 0);
    Passes(s, p, a, 0, 0);
  }

  /** A colon at the end would be outside of the closed brackets. */
  lemma {:induction false} PieceEnd(a: Text, p: nat, d: int)
    requires p < |a| && Level(a, p, d) == Some(0) && ColonFrom(a, p, d) == |a|
    ensures a[|a| - 1] != COLON
    decreases |a| - p
  {
    if p + 1 < |a| {
      PieceEnd(a, p + 1, d + Delta(a[p]));
    } else {
      assert Level(a, p + 1, d + Delta(a[p])) == Some(d + Delta(a[p]));
    }
  }

  // ---------------------------------------------------------------- printing

  function DigitChar(d: Decimals.Digit): (c: bv8)
    ensures Digit(c) == Some(d)
  {
    if d == 0 then 0x30 else if d == 1 then 0x31 else if d == 2 then 0x32 else if d == 3 then 0x33
    else if d == 4 then 0x34 else if d == 5 then 0x35 else if d == 6 then 0x36 else if d == 7 then 0x37
    else if d == 8 then 0x38 else 0x39
  }

  /** A number in decimal */
  function Decimal(n: nat): (t: Text)
    ensures t != [] && AllDigits(t) && Decimals.ValueOf(DigitsOf(t)) == n
  {
    var t := Decimals.Written(n, DigitChar);
    assert DigitsOf(t) == Decimals.Digits(n);
    Decimals.DigitsValue(n);
    t
  }

  lemma DigitIsQuiet(c: bv8)
    requires Digit(c).Some?
    ensures c != OPEN && c != CLOSE && c != COLON && !IsSpace(c) && c != 0x2b && c != 0x2d
  {
  }

  /** A decimal number is read back if and only if it fits an int. */
  lemma DecimalExactly(n: nat)
    ensures IsNumber(Decimal(n)) && Piece(Decimal(n))
    ensures Number(Decimal(n)) == n <==> n <= INT_MAX
  {
    var t := Decimal(n);
    DigitIsQuiet(t[0]);
    assert SkipSpaces(t) == t && !Signed(t);
    forall i | 0 <= i < |t| ensures t[i] != OPEN && t[i] != CLOSE && t[i] != COLON {
      DigitIsQuiet(t[i]);
    }
    QuietFrom(t, 0);
  }

  lemma ProtoIsQuiet(cfg: Config, name: Text)
    requires ParseProto(cfg, name).Some?
    ensures Piece(name) && !IsNumber(name)
  {
    ProtoExactly(cfg, name, ParseProto(cfg, name).value);
    forall i | 0 <= i < |name| ensures name[i] != OPEN && name[i] != CLOSE && name[i] != COLON {
      assert Letter(LowerAll(name)[i]);
    }
    QuietFrom(name, 0);
    assert Letter(LowerAll(name)[0]);
  }

  // ---------------------------------------------------------------- parsing inverts printing

  /** host */
  lemma HostExactly(cfg: Config, host: Text)
    requires Piece(host)
    ensures Parse(cfg, host) == Some(Address(host, 0, Unset)) <==> host != []
  {
    if host != [] {
      PieceEnd(host, 0, 0);
    }
  }

  lemma FallsInTwo(before: Text, after: Text)
    requires Piece(before) && Tail(after)
    ensures FieldsOf(before + [COLON] + after) == Two(before, after)
  {
    var s, c := before + [COLON] + after, |before|;
    TwoParts(s, before, after);
    assert s[..c] == before && s[c + 1..] == after;
  }

  lemma TwoParts(s: Text, before: Text, after: Text)
    requires Piece(before) && Tail(after) && s == before + [COLON] + after
    ensures var c := |before|;
            && Level(s, 0, 0).Some? && s[|s| - 1] != COLON
            && ColonFrom(s, 0, 0) == c && ColonFrom(s, c + 1, 0) == |s|
  {
    assert At(s, 0, before) && s[|before|] == COLON && At(s, |before| + 1, after);
    NextField(s, 0, before);
    LastField(s, |before| + 1, after);
  }

  predicate ThreeLaid(s: Text, name: Text, host: Text, port: Text) {
    var c, e := |name|, |name| + 1 + |host|;
    && |s| == e + 1 + |port| && s[c] == COLON && s[e] == COLON
    && At(s, 0, name) && At(s, c + 1, host) && At(s, e + 1, port)
  }

  lemma LaysThree(name: Text, host: Text, port: Text)
    ensures ThreeLaid(name + [COLON] + host + [COLON] + port, name, host, port)
  {
    var front: Text := name + [COLON] + host;
    assert At(front, 0, name) && front[|name|] == COLON && At(front, |name| + 1, host);
    var s := front + [COLON] + port;
    assert forall i | 0 <= i < |front| :: s[i] == front[i];
  }

  lemma FallsInThree(name: Text, host: Text, port: Text)
    requires Piece(name) && Piece(host) && Tail(port)
    ensures FieldsOf(name + [COLON] + host + [COLON] + port) == Three(name, host, port)
  {
    LaysThree(name, host, port);
    LaidFallsInThree(name + [COLON] + host + [COLON] + port, name, host, port);
  }

  lemma LaidFallsInThree(s: Text, name: Text, host: Text, port: Text)
    requires Piece(name) && Piece(host) && Tail(port) && ThreeLaid(s, name, host, port)
    ensures FieldsOf(s) == Three(name, host, port)
  {
    var c, e := |name|, |name| + 1 + |host|;
    ThreeParts(s, name, host, port);
    ThreeFields(s, c, e);
    ThreeSlices(s, name, host, port);
  }

  lemma ThreeFields(s: Text, c: nat, e: nat)
    requires c < e < |s| && Level(s, 0, 0).Some? && s[|s| - 1] != COLON
    requires ColonFrom(s, 0, 0) == c && ColonFrom(s, c + 1, 0) == e && ColonFrom(s, e + 1, 0) == |s|
    ensures FieldsOf(s) == Three(s[..c], s[c + 1..e], s[e + 1..])
  {
  }

  lemma ThreeSlices(s: Text, name: Text, host: Text, port: Text)
    requires ThreeLaid(s, name, host, port)
    ensures var c, e := |name|, |name| + 1 + |host|;
            e < |s| && s[..c] == name && s[c + 1..e] == host && s[e + 1..] == port
  {
    var c, e := |name|, |name| + 1 + |host|;
    SliceIs(s, 0, name);
    SliceIs(s, c + 1, host);
    SliceIs(s, e + 1, port);
  }

  lemma SliceIs(s: Text, p: nat, a: Text)
    requires At(s, p, a)
    ensures s[p..p + |a|] == a && (p == 0 ==> s[..|a|] == a) && (p + |a| == |s| ==> s[p..] == a)
  {
  }

  lemma ThreeParts(s: Text, name: Text, host: Text, port: Text)
    requires Piece(name) && Piece(host) && Tail(port) && ThreeLaid(s, name, host, port)
    ensures var c, e := |name|, |name| + 1 + |host|;
            && Level(s, 0, 0).Some? && s[|s| - 1] != COLON
            && ColonFrom(s, 0, 0) == c && ColonFrom(s, c + 1, 0) == e && ColonFrom(s, e + 1, 0) == |s|
  {
    NextField(s, 0, name);
    NextField(s, |name| + 1, host);
    LastField(s, |name| + 1 + |host| + 1, port);
  }

  /** host:port */
  lemma HostPortExactly(cfg: Config, host: Text, port: nat)
    requires Piece(host)
    ensures Parse(cfg, host + [COLON] + Decimal(port)) == Some(Address(host, port, Unset)) <==> port <= INT_MAX
  {
    DecimalExactly(port);
    PieceIsTail(Decimal(port));
    FallsInTwo(host, Decimal(port));
  }

  /** proto:host.  A host that is itself a number is taken for a port, and the protocol for a
      host. */
  lemma ProtoHostExactly(cfg: Config, name: Text, host: Text)
    requires ParseProto(cfg, name).Some? && Piece(host)
    ensures Parse(cfg, name + [COLON] + host) == Some(Address(host, 0, ParseProto(cfg, name).value))
            <==> (host != [] && !IsNumber(host))
    ensures IsNumber(host) ==> Parse(cfg, name + [COLON] + host) == Some(Address(name, Number(host), Unset))
  {
    ProtoIsQuiet(cfg, name);
    if host == [] {
      var s := name + [COLON] + host;
      assert s[|s| - 1] == COLON;
    } else {
      PieceIsTail(host);
      FallsInTwo(name, host);
    }
  }

  /** udp:5 is not host 5 by UDP, but host udp with port 5. */
  lemma NumberIsPort(cfg: Config)
    ensures Parse(cfg, UDP + [COLON] + Decimal(5)) == Some(Address(UDP, 5, Unset))
  {
    assert LowerAll(UDP) == UDP;
    ProtoExactly(cfg, UDP, Udp);
    DecimalExactly(5);
    ProtoHostExactly(cfg, UDP, Decimal(5));
  }

  /** proto:host:port */
  lemma ProtoHostPortExactly(cfg: Config, name: Text, host: Text, port: nat)
    requires ParseProto(cfg, name).Some? && Piece(host)
    ensures var r := Parse(cfg, name + [COLON] + host + [COLON] + Decimal(port));
            r == Some(Address(host, port, ParseProto(cfg, name).value)) <==> port <= INT_MAX
  {
    ProtoIsQuiet(cfg, name);
    DecimalExactly(port);
    PieceIsTail(Decimal(port));
    FallsInThree(name, host, Decimal(port));
  }

  function Join(f: Fields): Text
    requires f != Bad
  {
    match f
    case One(host) => host
    case Two(before, after) => before + [COLON] + after
    case Three(name, host, port) => name + [COLON] + host + [COLON] + port
  }

  /** The fields a text can have */
  predicate ProperFields(f: Fields) {
    match f
    case Bad => false
    case One(host) => Tail(host)
    case Two(before, after) => Piece(before) && Tail(after)
    case Three(name, host, port) => Piece(name) && Piece(host) && Tail(port)
  }

  lemma LastPart(s: Text, p: nat)
    requires p < |s| && Level(s, p, 0).Some? && ColonFrom(s, p, 0) == |s| && s[|s| - 1] != COLON
    ensures Tail(s[p..])
  {
    var a := s[p..];
    assert At(s, p, a) && a[|a| - 1] == s[|s| - 1];
    Passed(s, p, a, 0, 0);
  }

  lemma PartBefore(s: Text, p: nat, c: nat)
    requires p <= c < |s| && Level(s, p, 0).Some? && ColonFrom(s, p, 0) == c
    ensures Piece(s[p..c]) && Level(s, c + 1, 0) == Level(s, p, 0)
  {
    assert At(s, p, s[p..c]);
    PassedPiece(s, p, s[p..c]);
  }

  lemma TwoAreProper(s: Text, c: nat)
    requires c < |s| && Level(s, 0, 0).Some? && s[|s| - 1] != COLON
    requires ColonFrom(s, 0, 0) == c && ColonFrom(s, c + 1, 0) == |s|
    ensures var f := Two(s[..c], s[c + 1..]); ProperFields(f) && Join(f) == s
  {
    PartBefore(s, 0, c);
    LastPart(s, c + 1);
    CutAt(s, c);
    assert s[0..c] == s[..c];
  }

  lemma ThreeAreProper(s: Text, c: nat, e: nat)
    requires c < e < |s| && Level(s, 0, 0).Some? && s[|s| - 1] != COLON
    requires ColonFrom(s, 0, 0) == c && ColonFrom(s, c + 1, 0) == e && ColonFrom(s, e + 1, 0) == |s|
    ensures var f := Three(s[..c], s[c + 1..e], s[e + 1..]); ProperFields(f) && Join(f) == s
  {
    PartBefore(s, 0, c);
    PartBefore(s, c + 1, e);
    LastPart(s, e + 1);
    CutTwice(s, c, e);
    assert s[0..c] == s[..c];
  }

  /** The fields of a text are the proper ones that joined with colons make it up. */
  lemma FieldsExactly(s: Text, f: Fields)
    requires f != Bad
    ensures FieldsOf(s) == f <==> ProperFields(f) && Join(f) == s
  {
    if ProperFields(f) && Join(f) == s {
      match f
      case One(host) =>
      case Two(before, after) => FallsInTwo(before, after);
      case Three(name, host, port) => FallsInThree(name, host, port);
    } else if FieldsOf(s) == f {
      FieldsAreProper(s);
    }
  }

  lemma FieldsAreProper(s: Text)
    requires FieldsOf(s) != Bad
    ensures ProperFields(FieldsOf(s)) && Join(FieldsOf(s)) == s
  {
    var c := ColonFrom(s, 0, 0);
    if c < |s| {
      var e := ColonFrom(s, c + 1, 0);
      if e == |s| {
        TwoAreProper(s, c);
      } else {
        ThreeAreProper(s, c, e);
      }
    }
  }

  lemma CutAt(s: Text, c: nat)
    requires c < |s| && s[c] == COLON
    ensures s[..c] + [COLON] + s[c + 1..] == s
  {
  }

  lemma CutTwice(s: Text, c: nat, e: nat)
    requires c < e < |s| && s[c] == COLON && s[e] == COLON
    ensures s[..c] + [COLON] + s[c + 1..e] + [COLON] + s[e + 1..] == s
  {
    CutAt(s[..e], c);
    assert s[..e][..c] == s[..c] && s[..e][c + 1..] == s[c + 1..e];
    CutAt(s, e);
  }

  /** The four shapes: host, host:port with a number, proto:host and proto:host:port with the name
      of an enabled protocol in any mix of cases */
  predicate Says(cfg: Config, f: Fields, a: Address) {
    match f
    case Bad => false
    case One(host) => a == Address(host, 0, Unset)
    case Two(before, after) =>
      if IsNumber(after) then a == Address(before, Number(after), Unset)
      else a.host == after && a.port == 0 && Enabled(cfg, a.proto) && LowerAll(before) == NameOf(a.proto)
    case Three(name, host, port) =>
      && IsNumber(port) && a.host == host && a.port == Number(port)
      && Enabled(cfg, a.proto) && LowerAll(name) == NameOf(a.proto)
  }

  lemma MeaningSays(cfg: Config, f: Fields, a: Address)
    ensures Meaning(cfg, f) == Some(a) <==> Says(cfg, f, a)
  {
    if f.Two? {
      ProtoExactly(cfg, f.before, a.proto);
    } else if f.Three? {
      ProtoExactly(cfg, f.name, a.proto);
    }
  }

  /** Exactly the texts of the four shapes are accepted, and this is what they give. */
  lemma AcceptedExactly(cfg: Config, s: Text, a: Address)
    ensures Parse(cfg, s) == Some(a) <==> exists f :: ProperFields(f) && Join(f) == s && Says(cfg, f, a)
  {
    MeaningSays(cfg, FieldsOf(s), a);
    if Parse(cfg, s) == Some(a) {
      FieldsAreProper(s);
    }
    forall f | ProperFields(f) && Join(f) == s ensures FieldsOf(s) == f {
      FieldsExactly(s, f);
    }
  }

  // ---------------------------------------------------------------- brackets and colons

  /** The square brackets that are open before position `p` */
  ghost function Depth(s: Text, p: nat): int
    requires p <= |s|
  {
    if p == 0 then 0
    else Depth(s, p - 1) + if s[p - 1] == 0x5b then 1 else if s[p - 1] == 0x5d then -1 else 0
  }

  /** Brackets are not nested, and none is closed that is not open. */
  ghost predicate Bracketed(s: Text) { forall p | 0 <= p <= |s| :: 0 <= Depth(s, p) <= 1 }

  /** A colon outside of brackets */
  ghost predicate Splits(s: Text, p: nat) { p < |s| && s[p] == 0x3a && Depth(s, p) == 0 }

  lemma {:induction false} LevelExactly(s: Text, p: nat)
    requires p <= |s|
    ensures Level(s, p, Depth(s, p)).Some? <==> forall q | p < q <= |s| :: 0 <= Depth(s, q) <= 1
    ensures Level(s, p, Depth(s, p)).Some? ==> Level(s, p, Depth(s, p)).value == Depth(s, |s|)
    decreases |s| - p
  {
    if p < |s| {
      assert Depth(s, p + 1) == Depth(s, p) + Delta(s[p]);
      LevelExactly(s, p + 1);
    }
  }

  lemma {:induction false} ColonExactly(s: Text, p: nat)
    requires p <= |s|
    ensures var c := ColonFrom(s, p, Depth(s, p));
            (c < |s| ==> Splits(s, c)) && forall q: nat | p <= q < c :: !Splits(s, q)
    decreases |s| - p
  {
    if p < |s| && !Splits(s, p) {
      assert Depth(s, p + 1) == Depth(s, p) + Delta(s[p]);
      ColonExactly(s, p + 1);
    }
  }

  /** A piece has its brackets closed and no colon outside of them; the last field may leave a bracket
      open, but must not be empty or end with a colon. */
  lemma PieceExactly(s: Text)
    ensures Piece(s) <==> Bracketed(s) && Depth(s, |s|) == 0 && forall p: nat :: !Splits(s, p)
    ensures Tail(s) <==> s != [] && s[|s| - 1] != 0x3a && Bracketed(s) && forall p: nat :: !Splits(s, p)
  {
    LevelExactly(s, 0);
    ColonExactly(s, 0);
    var c := ColonFrom(s, 0, 0);
    assert Depth(s, 0) == 0;
    assert Level(s, 0, 0).Some? ==> Bracketed(s);
    assert Bracketed(s) ==> forall q | 0 < q <= |s| :: 0 <= Depth(s, q) <= 1;
    assert Bracketed(s) ==> Level(s, 0, Depth(s, 0)).Some?;
    assert (forall p: nat :: !Splits(s, p)) <==> c == |s|;
  }

  // ---------------------------------------------------------------- numbers

  /** White space, a sign or none, and decimal digits */
  ghost predicate IsSpelled(t: Text, space: Text, sign: Text, digits: Text) {
    && t == space + sign + digits && digits != []
    && (forall i | 0 <= i < |space| :: space[i] in {0x20, 0x09, 0x0a, 0x0b, 0x0c, 0x0d})
    && sign in {[], [0x2b], [0x2d]}
    && forall i | 0 <= i < |digits| :: 0x30 <= digits[i] <= 0x39
  }

  /** The value of a digit character */
  lemma DigitExactly(c: bv8)
    ensures Digit(c).Some? <==> 0x30 <= c <= 0x39
    ensures Digit(c).Some? ==> Digit(c).value == (c - 0x30) as int
  {
  }

  lemma {:induction false} SpacesAreSkipped(space: Text, rest: Text)
    requires forall i | 0 <= i < |space| :: IsSpace(space[i])
    requires rest == [] || !IsSpace(rest[0])
    ensures SkipSpaces(space + rest) == rest
    decreases |space|
  {
    if space == [] {
      assert space + rest == rest;
    } else {
      assert (space + rest)[1..] == space[1..] + rest;
      SpacesAreSkipped(space[1..], rest);
    }
  }

  lemma {:induction false} SkippedAreSpaces(t: Text) returns (space: Text)
    ensures t == space + SkipSpaces(t) && forall i | 0 <= i < |space| :: IsSpace(space[i])
    decreases |t|
  {
    space := [];
    if t != [] && IsSpace(t[0]) {
      var more := SkippedAreSpaces(t[1..]);
      space := [t[0]] + more;
    }
  }

  /** strtol reads exactly such a text to its end. */
  lemma IsNumberExactly(t: Text)
    ensures IsNumber(t) <==> exists space, sign, digits :: IsSpelled(t, space, sign, digits)
  {
    if space, sign, digits :| IsSpelled(t, space, sign, digits) {
      SpelledIsNumber(t, space, sign, digits);
    }
    if IsNumber(t) {
      var space, sign, digits := NumberIsSpelled(t);
    }
  }

  lemma NumberIsSpelled(t: Text) returns (space: Text, sign: Text, digits: Text)
    requires IsNumber(t)
    ensures IsSpelled(t, space, sign, digits)
  {
    space := SkippedAreSpaces(t);
    var u := SkipSpaces(t);
    sign, digits := if Signed(u) then [u[0]] else [], if Signed(u) then u[1..] else u;
    forall i | 0 <= i < |digits| ensures 0x30 <= digits[i] <= 0x39 {
      DigitExactly(digits[i]);
    }
    assert u == sign + digits;
    Lists.Assoc(space, sign, digits);
  }

  /** Its value saturates as a 64-bit number, of which the low 32 bits are kept. */
  ghost predicate IsStored(n: int, value: int) {
    exists wraps ::
      && n == (if value > 0x7fff_ffff_ffff_ffff then 0x7fff_ffff_ffff_ffff
               else if value < -0x8000_0000_0000_0000 then -0x8000_0000_0000_0000 else value) + wraps * 0x1_0000_0000
      && -0x8000_0000 <= n <= 0x7fff_ffff
  }

  lemma SpelledIsNumber(t: Text, space: Text, sign: Text, digits: Text)
    requires IsSpelled(t, space, sign, digits)
    ensures IsNumber(t) && AllDigits(digits)
    ensures var value := Decimals.ValueOf(DigitsOf(digits));
            IsStored(Number(t), if sign == [0x2d] then -(value as int) else value)
  {
    forall i | 0 <= i < |digits| ensures Digit(digits[i]).Some? {
      DigitExactly(digits[i]);
    }
    var u := sign + digits;
    assert t == space + u;
    assert sign != [] ==> u[0] == sign[0] && u[1..] == digits;
    assert sign == [] ==> u == digits;
    DigitIsQuiet(digits[0]);
    SpacesAreSkipped(space, u);
    var value := Decimals.ValueOf(DigitsOf(digits));
    StoredExactly(if sign == [0x2d] then -(value as int) else value);
  }

  lemma StoredExactly(value: int)
    ensures IsStored(ToInt(Clamp(value)), value)
  {
    var x := Clamp(value);
    var n := ToInt(x);
    var wraps := -(x / 0x1_0000_0000) - if x % 0x1_0000_0000 > INT_MAX then 1 else 0;
    assert x == (x / 0x1_0000_0000) * 0x1_0000_0000 + x % 0x1_0000_0000;
    assert n == x + wraps * 0x1_0000_0000;
  }

  // ---------------------------------------------------------------- implementation

  /** What the scan has found before position `p`, with `d` brackets open there */
  ghost predicate Scanned(s: Text, p: nat, d: int, first: Option<nat>, second: Option<nat>) {
    && p <= |s|
    && (first.None? ==> second.None? && ColonFrom(s, 0, 0) == ColonFrom(s, p, d))
    && (first.Some? ==> first.value < p && ColonFrom(s, 0, 0) == first.value)
    && (first.Some? && second.None? ==> ColonFrom(s, first.value + 1, 0) == ColonFrom(s, p, d))
    && (first.Some? && second.Some? ==>
          second.value < p && ColonFrom(s, first.value + 1, 0) == second.value
          && ColonFrom(s, second.value + 1, 0) == ColonFrom(s, p, d))
  }

  /** A third colon outside of brackets */
  ghost predicate ThreeColons(s: Text) {
    var c := ColonFrom(s, 0, 0);
    c < |s| &&
    var e := ColonFrom(s, c + 1, 0);
    e < |s| && ColonFrom(s, e + 1, 0) < |s|
  }

  lemma ScannedByte(s: Text, p: nat, d: int, first: Option<nat>, second: Option<nat>)
    requires Scanned(s, p, d, first, second) && p < |s|
    ensures !(s[p] == COLON && d == 0) ==> Scanned(s, p + 1, d + Delta(s[p]), first, second)
    ensures s[p] == COLON && d == 0 && first.None? ==> Scanned(s, p + 1, 0, Some(p), None)
    ensures s[p] == COLON && d == 0 && first.Some? && second.None? ==> Scanned(s, p + 1, 0, first, Some(p))
    ensures s[p] == COLON && d == 0 && first.Some? && second.Some? ==> ThreeColons(s)
  {
  }

  /** The scan of parse_phostport */
  method Scan(s: Text) returns (ok: bool, first: Option<nat>, second: Option<nat>)
    ensures ok <==> Level(s, 0, 0).Some? && !ThreeColons(s)
    ensures ok ==> Scanned(s, |s|, 0, first, second)
  {
    first, second := None, None;
    var bracket, p := 0, 0;
    while p < |s|
      invariant 0 <= p <= |s| && 0 <= bracket <= 1 && Level(s, 0, 0) == Level(s, p, bracket)
      invariant Scanned(s, p, bracket, first, second)
    {
      ScannedByte(s, p, bracket, first, second);
      if s[p] == OPEN {
        bracket := bracket + 1;
        if bracket > 1 {
          return false, None, None;
        }
      } else if s[p] == CLOSE {
        bracket := bracket - 1;
        if bracket < 0 {
          return false, None, None;
        }
      } else if s[p] == COLON && bracket == 0 {
        if first.None? {
          first := Some(p);
        } else if second.None? {
          second := Some(p);
        } else {
          return false, None, None;
        }
      }
      p := p + 1;
    }
    ok := true;
  }

  method ParsePhostport(cfg: Config, s: Text) returns (r: Option<Address>)
    ensures r == Parse(cfg, s)
  {
    var ok, first, second := Scan(s);
    if !ok || |s| == 0 || s[|s| - 1] == COLON {
      return None;
    }
    if first.None? {
      return Some(Address(s, 0, Unset));
    }
    if second.Some? {
      var name, host, port := s[..first.value], s[first.value + 1..second.value], s[second.value + 1..];
      assert FieldsOf(s) == Three(name, host, port);
      var proto := ParseProto(cfg, name);
      if proto.None? || !IsNumber(port) {
        return None;
      }
      return Some(Address(host, Number(port), proto.value));
    }
    var before, after := s[..first.value], s[first.value + 1..];
    assert FieldsOf(s) == Two(before, after);
    if !IsNumber(after) {
      var proto := ParseProto(cfg, before);
      if proto.None? {
        return None;
      }
      return Some(Address(after, 0, proto.value));
    }
    return Some(Address(before, Number(after), Unset));
  }
}
